/** The token authority: a token is the keyed MAC of "member_id:action:index",
    where index is the number of whole time windows since the epoch, written in
    URL-safe base64 without padding. Verification recomputes the token for the
    current window and the one before and accepts either.

    HMAC-SHA256 itself is not modelled: `Config.mac` is any function from
    (key, message) to a 32-byte digest. Where a property depends on the MAC
    telling inputs apart, the lemma assumes exactly that, for the inputs it
    compares, through `NoCollision`. */
module Tokens {
  import opened Outcomes
  import opened Encoding

  /** An HMAC-SHA256 digest. */
  type Digest = d: seq<byte> | |d| == 32 witness seq(32, _ => 0)

  /** The keyed MAC, key first, applied to the UTF-8 bytes of both strings. */
  type Mac = (string, string) -> Digest

  /** The length of a time window in seconds. */
  type Window = w: nat | w > 0 witness 10

  /** The window length the service uses (TOKEN_WINDOW_SECONDS). */
  const TokenWindowSeconds: Window := 10

  /** The secret the service falls back to when QR_SECRET is unset. */
  const DefaultSecret: string := "dev-secret"

  /** The shared secret, the window length and the MAC, given to the service
      instead of being read from the environment. */
  datatype Config = Config(secret: string, window: Window, mac: Mac)

  /** The two actions a token can authorise. */
  predicate IsAction(action: string) {
    action == "IN" || action == "OUT"
  }

  /** The index of the window holding `now` (whole seconds since the epoch). */
  function WindowIndex(now: nat, window: Window): nat {
    now / window
  }

  /** The window with index i covers the seconds [i*w, i*w + w). */
  lemma WindowIndexBounds(now: nat, window: Window)
    ensures WindowIndex(now, window) * window <= now < WindowIndex(now, window) * window + window
  {
  }

  /** The signed text "member_id:action:index". */
  function Message(memberId: string, action: string, index: int): string {
    memberId + ":" + action + ":" + IntToDecimal(index)
  }

  /** The token for one member, action and window index: the MAC of the message
      under the secret, URL-safe base64 encoded with the `=` padding stripped. */
  function TokenFor(cfg: Config, memberId: string, action: string, index: int): string {
    RStrip(Base64UrlPadded(cfg.mac(cfg.secret, Message(memberId, action, index))), '=')
  }

  /** A token is the padding-free encoding of its digest: 43 characters, all from
      the URL-safe alphabet, none of them `=`. */
  lemma TokenShape(cfg: Config, memberId: string, action: string, index: int)
    ensures TokenFor(cfg, memberId, action, index) == Base64Url(cfg.mac(cfg.secret, Message(memberId, action, index)))
    ensures |TokenFor(cfg, memberId, action, index)| == 43
    ensures forall i :: 0 <= i < 43 ==> IsSymbol(TokenFor(cfg, memberId, action, index)[i])
  {
    var digest := cfg.mac(cfg.secret, Message(memberId, action, index));
    StripPaddingIsUnpadded(digest);
    Base64UrlLength(digest);
    Base64UrlAlphabet(digest);
  }

  /** generate_token: fails with "Invalid action" unless the action is IN or OUT;
      otherwise returns the token for the window holding `now`. */
  function GenerateToken(cfg: Config, memberId: string, action: string, now: nat): (r: Result<string>)
    ensures r.Err? <==> !IsAction(action)
    ensures r.Err? ==> r.error == InvalidAction
    ensures r.Ok? ==> |r.value| == 43 && forall i :: 0 <= i < |r.value| ==> IsSymbol(r.value[i])
    ensures r.Ok? ==> Verifies(cfg, memberId, action, r.value, now)
  {
    if !IsAction(action) then Err(InvalidAction)
    else
      TokenShape(cfg, memberId, action, WindowIndex(now, cfg.window));
      Ok(TokenFor(cfg, memberId, action, WindowIndex(now, cfg.window)))
  }

  /** What verify_token decides: the token equals the one for the current window
      or the one for the window before (which is -1 during the first window). */
  predicate Verifies(cfg: Config, memberId: string, action: string, token: string, now: nat) {
    var current := WindowIndex(now, cfg.window);
    token == TokenFor(cfg, memberId, action, current)
    || token == TokenFor(cfg, memberId, action, current - 1)
  }

  /** verify_token: tries the current window, then the previous one, and returns
      at the first match. Compares with sequence equality (see VerifyAsWritten
      for the comparison the service actually makes). */
  method VerifyToken(cfg: Config, memberId: string, action: string, token: string, now: nat)
    returns (ok: bool)
    ensures ok == Verifies(cfg, memberId, action, token, now)
  {
    var current: int := WindowIndex(now, cfg.window);
    var slices := [current, current - 1];
    for k := 0 to |slices|
      invariant k >= 1 ==> TokenFor(cfg, memberId, action, current) != token
      invariant k >= 2 ==> TokenFor(cfg, memberId, action, current - 1) != token
    {
      var ts := slices[k];
      assert ts == current - k;
      var expected := TokenFor(cfg, memberId, action, ts);
      if expected == token {
        return true;
      }
    }
    return false;
  }

  // ---------------------------------------------------------------------------
  // The comparison as written: hmac.compare_digest on two str values
  // ---------------------------------------------------------------------------

  predicate IsAscii(s: string) {
    forall i :: 0 <= i < |s| ==> s[i] as int < 128
  }

  /** `hmac.compare_digest(a, b)` on str arguments: raises TypeError unless both
      are ASCII, otherwise tells whether they are equal. */
  function CompareDigest(a: string, b: string): (r: Option<bool>)
    ensures r.None? <==> !(IsAscii(a) && IsAscii(b))
    ensures r.Some? ==> (r.value <==> a == b)
  {
    if IsAscii(a) && IsAscii(b) then Some(a == b) else None
  }

  /** The loop of verify_token over the given window indices, comparing with
      CompareDigest; a raised TypeError escapes as an uncaught error. */
  function SearchAsWritten(cfg: Config, memberId: string, action: string, token: string, slices: seq<int>)
    : Result<bool>
  {
    if slices == [] then Ok(false)
    else match CompareDigest(TokenFor(cfg, memberId, action, slices[0]), token)
      case None => Err(UncaughtTypeError)
      case Some(true) => Ok(true)
      case Some(false) => SearchAsWritten(cfg, memberId, action, token, slices[1..])
  }

  /** verify_token as written. */
  function VerifyAsWritten(cfg: Config, memberId: string, action: string, token: string, now: nat)
    : Result<bool>
  {
    var current := WindowIndex(now, cfg.window);
    SearchAsWritten(cfg, memberId, action, token, [current, current - 1])
  }

  /** As written, a token holding a non-ASCII character makes verify_token raise
      instead of returning False. */
  lemma NonAsciiTokenRaises(cfg: Config, memberId: string, action: string, token: string, now: nat)
    requires !IsAscii(token)
    ensures VerifyAsWritten(cfg, memberId, action, token, now) == Err(UncaughtTypeError)
  {
  }

  lemma TokenIsAscii(cfg: Config, memberId: string, action: string, index: int)
    ensures IsAscii(TokenFor(cfg, memberId, action, index))
  {
    TokenShape(cfg, memberId, action, index);
  }

  /** On every ASCII token the service's verify_token agrees with Verifies. */
  lemma AsciiTokenAgrees(cfg: Config, memberId: string, action: string, token: string, now: nat)
    requires IsAscii(token)
    ensures VerifyAsWritten(cfg, memberId, action, token, now) == Ok(Verifies(cfg, memberId, action, token, now))
  {
    var current: int := WindowIndex(now, cfg.window);
    TokenIsAscii(cfg, memberId, action, current);
    TokenIsAscii(cfg, memberId, action, current - 1);
    SearchTwoAscii(cfg, memberId, action, token, current, current - 1);
  }

  /** Over two ASCII candidates the search answers whether either matches. */
  lemma SearchTwoAscii(cfg: Config, memberId: string, action: string, token: string, i: int, j: int)
    requires IsAscii(token) && IsAscii(TokenFor(cfg, memberId, action, i)) && IsAscii(TokenFor(cfg, memberId, action, j))
    ensures SearchAsWritten(cfg, memberId, action, token, [i, j])
         == Ok(token == TokenFor(cfg, memberId, action, i) || token == TokenFor(cfg, memberId, action, j))
  {
    assert [i, j][1..] == [j] && [j][1..] == [];
    assert SearchAsWritten(cfg, memberId, action, token, [j]) == Ok(token == TokenFor(cfg, memberId, action, j));
  }

  /** The evident intent, which Verifies meets: a token with a character outside
      ASCII matches no candidate and is rejected without raising. */
  lemma NonAsciiTokenRejected(cfg: Config, memberId: string, action: string, token: string, now: nat)
    requires !IsAscii(token)
    ensures !Verifies(cfg, memberId, action, token, now)
  {
    var current: int := WindowIndex(now, cfg.window);
    TokenIsAscii(cfg, memberId, action, current);
    TokenIsAscii(cfg, memberId, action, current - 1);
  }

  // ---------------------------------------------------------------------------
  // Binding: the message and the token determine their inputs
  // ---------------------------------------------------------------------------

  lemma ColonInLongerSuffix(x1: string, y1: string, x2: string, y2: string)
    requires x1 + ":" + y1 == x2 + ":" + y2 && |y1| < |y2|
    ensures y2[|x1| - |x2| - 1] == ':'
  {
    var s := x1 + ":" + y1;
    assert s[|x1|] == ':';
    assert s[|x1|] == (x2 + ":" + y2)[|x1|];
  }

  /** Splitting at the last colon: a suffix without a colon is determined. */
  lemma SplitAtLastColon(x1: string, y1: string, x2: string, y2: string)
    requires ':' !in y1 && ':' !in y2
    requires x1 + ":" + y1 == x2 + ":" + y2
    ensures x1 == x2 && y1 == y2
  {
    var s := x1 + ":" + y1;
    if |y1| < |y2| {
      ColonInLongerSuffix(x1, y1, x2, y2);
      assert false;
    } else if |y2| < |y1| {
      ColonInLongerSuffix(x2, y2, x1, y1);
      assert false;
    }
    assert x1 == s[..|x1|] == x2;
    assert y1 == s[|x1| + 1..] == y2;
  }

  /** "member_id:action:index" determines all three parts whenever the actions
      hold no colon, as IN and OUT do, even if the member id holds colons: the
      index and the action are read off from the right. */
  lemma MessageInjective(m1: string, a1: string, i1: int, m2: string, a2: string, i2: int)
    requires ':' !in a1 && ':' !in a2
    requires Message(m1, a1, i1) == Message(m2, a2, i2)
    ensures m1 == m2 && a1 == a2 && i1 == i2
  {
    SplitAtLastColon(m1 + ":" + a1, IntToDecimal(i1), m2 + ":" + a2, IntToDecimal(i2));
    IntToDecimalInjective(i1, i2);
    SplitAtLastColon(m1, a1, m2, a2);
  }

  /** A colon-free member id shows that a colon in the action breaks injectivity:
      the action must be checked before the message is built. */
  lemma ColonInActionCollides()
    ensures Message("a:b", "IN", 5) == Message("a", "b:IN", 5)
  {
  }

  /** The assumption on the MAC for one pair of inputs: equal digests only for
      equal (key, message) inputs. */
  ghost predicate NoCollision(mac: Mac, key1: string, msg1: string, key2: string, msg2: string) {
    mac(key1, msg1) == mac(key2, msg2) ==> key1 == key2 && msg1 == msg2
  }

  /** Equal tokens mean equal secrets, members, actions and window indices. */
  lemma TokenDeterminesInputs(cfg: Config, secret': string,
                              m1: string, a1: string, i1: int, m2: string, a2: string, i2: int)
    requires ':' !in a1 && ':' !in a2
    requires NoCollision(cfg.mac, cfg.secret, Message(m1, a1, i1), secret', Message(m2, a2, i2))
    requires TokenFor(cfg, m1, a1, i1) == TokenFor(cfg.(secret := secret'), m2, a2, i2)
    ensures secret' == cfg.secret && m1 == m2 && a1 == a2 && i1 == i2
  {
    TokenShape(cfg, m1, a1, i1);
    TokenShape(cfg.(secret := secret'), m2, a2, i2);
    Base64UrlInjective(cfg.mac(cfg.secret, Message(m1, a1, i1)), cfg.mac(secret', Message(m2, a2, i2)));
    MessageInjective(m1, a1, i1, m2, a2, i2);
  }

  /** The collision assumption a verification at `now` needs: the token issued
      under `cfg` for (m, a, index) against both digests the verifier, holding
      `secret'`, recomputes for (m', a'). */
  ghost predicate CandidatesCollisionFree(cfg: Config, m: string, a: string, index: int,
                                          secret': string, m': string, a': string, now: nat)
  {
    var current := WindowIndex(now, cfg.window);
    && NoCollision(cfg.mac, cfg.secret, Message(m, a, index), secret', Message(m', a', current))
    && NoCollision(cfg.mac, cfg.secret, Message(m, a, index), secret', Message(m', a', current - 1))
  }

  /** A token is accepted only by a verifier with the same secret, for the same
      member and action, in the window it was issued for or the next one. */
  lemma {:induction false} AcceptedOnlyForItsInputs(cfg: Config, secret': string, m: string, a: string, index: int,
                                 m': string, a': string, now: nat)
    requires ':' !in a && ':' !in a'
    requires CandidatesCollisionFree(cfg, m, a, index, secret', m', a', now)
    requires Verifies(cfg.(secret := secret'), m', a', TokenFor(cfg, m, a, index), now)
    ensures secret' == cfg.secret && m' == m && a' == a
    ensures WindowIndex(now, cfg.window) == index || WindowIndex(now, cfg.window) == index + 1
  {
    var current: int := WindowIndex(now, cfg.window);
    if TokenFor(cfg, m, a, index) == TokenFor(cfg.(secret := secret'), m', a', current) {
      TokenDeterminesInputs(cfg, secret', m, a, index, m', a', current);
    } else {
      TokenDeterminesInputs(cfg, secret', m, a, index, m', a', current - 1);
    }
  }

  // ---------------------------------------------------------------------------
  // The validity window
  // ---------------------------------------------------------------------------

  /** A token issued at `t` is accepted at every `t'` whose window is the same
      or the next one. */
  lemma AcceptedInIssueAndNextWindow(cfg: Config, memberId: string, action: string, t: nat, t': nat)
    requires IsAction(action)
    requires WindowIndex(t', cfg.window) - WindowIndex(t, cfg.window) in {0, 1}
    ensures GenerateToken(cfg, memberId, action, t).Ok?
    ensures Verifies(cfg, memberId, action, GenerateToken(cfg, memberId, action, t).value, t')
  {
  }

  /** In particular, for a full window length after issue. */
  lemma AcceptedForOneWindowLength(cfg: Config, memberId: string, action: string, t: nat, t': nat)
    requires IsAction(action)
    requires t <= t' < t + cfg.window
    ensures GenerateToken(cfg, memberId, action, t).Ok?
    ensures Verifies(cfg, memberId, action, GenerateToken(cfg, memberId, action, t).value, t')
  {
    var w := cfg.window;
    var i, i' := WindowIndex(t, w), WindowIndex(t', w);
    assert i * w <= t' < (i + 2) * w;
    WindowIndexBetween(t', w, i);
    AcceptedInIssueAndNextWindow(cfg, memberId, action, t, t');
  }

  /** A time in [i*w, (i+2)*w) lies in window i or i+1, and only such times do. */
  lemma WindowIndexBetween(t: nat, w: Window, i: int)
    ensures i * w <= t < (i + 2) * w <==> WindowIndex(t, w) - i in {0, 1}
  {
    var k := WindowIndex(t, w);
    WindowIndexBounds(t, w);
    assert (i + 2) * w == i * w + 2 * w;
    if k <= i - 1 {
      MulMonotone(k, i - 1, w);
      assert t < i * w;
    } else if k >= i + 2 {
      MulMonotone(i + 2, k, w);
    } else {
      assert (i + 1) * w == i * w + w;
    }
  }

  lemma MulMonotone(a: int, b: int, w: nat)
    requires a <= b
    ensures a * w <= b * w
  {
    assert b * w - a * w == (b - a) * w;
  }

  /** Under collision freedom, the token issued at `t` is accepted at `t'`
      exactly when `t'` falls in the issuing window or the next. */
  lemma AcceptedExactlyInTwoWindows(cfg: Config, memberId: string, action: string, t: nat, t': nat)
    requires IsAction(action)
    requires CandidatesCollisionFree(cfg, memberId, action, WindowIndex(t, cfg.window),
                                     cfg.secret, memberId, action, t')
    ensures GenerateToken(cfg, memberId, action, t).Ok?
    ensures Verifies(cfg, memberId, action, GenerateToken(cfg, memberId, action, t).value, t')
        <==> WindowIndex(t', cfg.window) - WindowIndex(t, cfg.window) in {0, 1}
  {
    var i := WindowIndex(t, cfg.window);
    assert cfg.(secret := cfg.secret) == cfg;
    if Verifies(cfg, memberId, action, TokenFor(cfg, memberId, action, i), t') {
      AcceptedOnlyForItsInputs(cfg, cfg.secret, memberId, action, i, memberId, action, t');
    }
  }

  /** The hard expiry: two window lengths after issue the token is refused, and
      before its window it is refused too. */
  lemma RejectedOutsideItsWindows(cfg: Config, memberId: string, action: string, t: nat, t': nat)
    requires IsAction(action)
    requires CandidatesCollisionFree(cfg, memberId, action, WindowIndex(t, cfg.window),
                                     cfg.secret, memberId, action, t')
    requires t' >= t + 2 * cfg.window || WindowIndex(t', cfg.window) < WindowIndex(t, cfg.window)
    ensures !Verifies(cfg, memberId, action, GenerateToken(cfg, memberId, action, t).value, t')
  {
    AcceptedExactlyInTwoWindows(cfg, memberId, action, t, t');
    if t' >= t + 2 * cfg.window {
      TwoWindowsLater(t, t', cfg.window);
    }
  }

  /** Two window lengths after t, the window index has moved on by at least two. */
  lemma TwoWindowsLater(t: nat, t': nat, w: Window)
    requires t' >= t + 2 * w
    ensures WindowIndex(t', w) - WindowIndex(t, w) >= 2
  {
    var i := WindowIndex(t, w);
    WindowIndexBounds(t, w);
    assert (i + 2) * w == i * w + 2 * w;
    WindowIndexBetween(t', w, i);
    WindowIndexBounds(t', w);
    if WindowIndex(t', w) < i {
      MulMonotone(WindowIndex(t', w) + 1, i, w);
    }
  }

  /** Total lifetime: a token issued at `t` is accepted only at times `t'` with
      t - w < t' < t + 2w, a span shorter than three window lengths. */
  lemma AcceptanceSpan(cfg: Config, memberId: string, action: string, t: nat, t': nat)
    requires IsAction(action)
    requires CandidatesCollisionFree(cfg, memberId, action, WindowIndex(t, cfg.window),
                                     cfg.secret, memberId, action, t')
    requires Verifies(cfg, memberId, action, GenerateToken(cfg, memberId, action, t).value, t')
    ensures t - cfg.window < t' < t + 2 * cfg.window
  {
    AcceptedExactlyInTwoWindows(cfg, memberId, action, t, t');
    TwoWindowSpan(t, t', cfg.window);
  }

  /** A time in the window of `t` or the next lies within (t - w, t + 2w). */
  lemma TwoWindowSpan(t: nat, t': nat, w: Window)
    requires WindowIndex(t', w) - WindowIndex(t, w) in {0, 1}
    ensures t - w < t' < t + 2 * w
  {
    var i := WindowIndex(t, w);
    WindowIndexBetween(t', w, i);
    WindowIndexBounds(t, w);
    assert (i + 2) * w == i * w + 2 * w;
  }

  /** Two times in the same window give the same token. */
  lemma SameWindowSameToken(cfg: Config, memberId: string, action: string, t1: nat, t2: nat)
    requires WindowIndex(t1, cfg.window) == WindowIndex(t2, cfg.window)
    ensures GenerateToken(cfg, memberId, action, t1) == GenerateToken(cfg, memberId, action, t2)
  {
  }

  // ---------------------------------------------------------------------------
  // Binding to action, member and secret
  // ---------------------------------------------------------------------------

  /** A token issued for one action is never accepted for the other. */
  lemma ActionBinding(cfg: Config, memberId: string, action: string, action': string, t: nat, t': nat)
    requires IsAction(action) && IsAction(action') && action != action'
    requires CandidatesCollisionFree(cfg, memberId, action, WindowIndex(t, cfg.window),
                                     cfg.secret, memberId, action', t')
    ensures !Verifies(cfg, memberId, action', GenerateToken(cfg, memberId, action, t).value, t')
  {
    var i := WindowIndex(t, cfg.window);
    assert cfg.(secret := cfg.secret) == cfg;
    if Verifies(cfg, memberId, action', TokenFor(cfg, memberId, action, i), t') {
      AcceptedOnlyForItsInputs(cfg, cfg.secret, memberId, action, i, memberId, action', t');
    }
  }

  /** A token issued for one member is never accepted for another. */
  lemma IdentityBinding(cfg: Config, memberId: string, memberId': string, action: string, t: nat, t': nat)
    requires IsAction(action) && memberId != memberId'
    requires CandidatesCollisionFree(cfg, memberId, action, WindowIndex(t, cfg.window),
                                     cfg.secret, memberId', action, t')
    ensures !Verifies(cfg, memberId', action, GenerateToken(cfg, memberId, action, t).value, t')
  {
    var i := WindowIndex(t, cfg.window);
    assert cfg.(secret := cfg.secret) == cfg;
    if Verifies(cfg, memberId', action, TokenFor(cfg, memberId, action, i), t') {
      AcceptedOnlyForItsInputs(cfg, cfg.secret, memberId, action, i, memberId', action, t');
    }
  }

  /** A verifier holding a different secret rejects the token, returning false. */
  lemma WrongSecretRejected(cfg: Config, secret': string, memberId: string, action: string, t: nat, t': nat)
    requires IsAction(action) && secret' != cfg.secret
    requires CandidatesCollisionFree(cfg, memberId, action, WindowIndex(t, cfg.window),
                                     secret', memberId, action, t')
    ensures !Verifies(cfg.(secret := secret'), memberId, action, GenerateToken(cfg, memberId, action, t).value, t')
  {
    var i := WindowIndex(t, cfg.window);
    if Verifies(cfg.(secret := secret'), memberId, action, TokenFor(cfg, memberId, action, i), t') {
      AcceptedOnlyForItsInputs(cfg, secret', memberId, action, i, memberId, action, t');
    }
  }

  /** With the default secret and a 10-second window: issued at 1000 (window 100),
      the IN token for "m1" is accepted at 1005 and at 1015 and refused at 1025. */
  lemma DefaultSettingsScenario(mac: Mac)
    requires CandidatesCollisionFree(Config(DefaultSecret, TokenWindowSeconds, mac), "m1", "IN", 100,
                                     DefaultSecret, "m1", "IN", 1025)
    ensures var cfg := Config(DefaultSecret, TokenWindowSeconds, mac);
      && GenerateToken(cfg, "m1", "IN", 1000).Ok?
      && WindowIndex(1000, cfg.window) == 100
      && Verifies(cfg, "m1", "IN", GenerateToken(cfg, "m1", "IN", 1000).value, 1005)
      && Verifies(cfg, "m1", "IN", GenerateToken(cfg, "m1", "IN", 1000).value, 1015)
      && !Verifies(cfg, "m1", "IN", GenerateToken(cfg, "m1", "IN", 1000).value, 1025)
  {
    var cfg := Config(DefaultSecret, TokenWindowSeconds, mac);
    RejectedOutsideItsWindows(cfg, "m1", "IN", 1000, 1025);
  }
}
