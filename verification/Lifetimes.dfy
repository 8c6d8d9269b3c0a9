/**
 * Day arithmetic: what an ACME order's requested expiry becomes in the certificate, and why renewing
 * keeps a certificate's span. Instants are nanoseconds since the Unix epoch, days are 24 hours (UTC).
 */
module Lifetimes {
  import opened Common

  type Instant = int

  const SECOND: int := 1_000_000_000
  const MINUTE: int := 60 * SECOND
  const DAY: int := 86_400 * SECOND

  /** The order's own lifetime. */
  const ORDER_TTL: int := DAY

  /** X.509 times carry whole seconds. */
  function Whole(t: Instant): Instant {
    t - t % SECOND
  }

  /** Exact quotient rounded up. */
  function CeilDays(d: int): int {
    -(-d / DAY)
  }

  lemma WholeFacts(t: Instant, n: int)
    ensures t - SECOND < Whole(t) <= t
    ensures Whole(t + n * SECOND) == Whole(t) + n * SECOND
  {
    assert (t + n * SECOND) / SECOND == t / SECOND + n;
  }

  lemma CeilBounds(d: int)
    ensures (CeilDays(d) - 1) * DAY < d <= CeilDays(d) * DAY
  {
  }

  // ---------- new-order ----------

  datatype RequestedTime = Blank | Unparsable | At(t: Instant)

  datatype Refusal = NotBeforeUnsupported | NotATimestamp | NotInTheFuture | BeyondMaximum

  /** requestedNotAfter; `maxDays` is the credential's, `defaultDays` the authority's. */
  function RequestedNotAfter(notBeforeGiven: bool, notAfter: RequestedTime, maxDays: int, defaultDays: int,
      now: Instant):
      Result<Option<Instant>, Refusal>
  {
    if notBeforeGiven then Err(NotBeforeUnsupported)
    else
      match notAfter
      case Blank => Ok(None)
      case Unparsable => Err(NotATimestamp)
      case At(t) =>
        if t <= now then Err(NotInTheFuture)
        else if t > now + MaxDays(maxDays, defaultDays) * DAY + MINUTE then Err(BeyondMaximum)
        else Ok(Some(t))
  }

  function MaxDays(maxDays: int, defaultDays: int): int {
    if maxDays <= 0 then defaultDays else maxDays
  }

  /**
   * A requested expiry is granted exactly if it lies ahead and at most a minute beyond the credential's
   * days, or the authority's where the credential names none; a start is never granted.
   */
  lemma RequestedNotAfterExact(notBeforeGiven: bool, notAfter: RequestedTime, maxDays: int, defaultDays: int,
      now: Instant)
    ensures var r := RequestedNotAfter(notBeforeGiven, notAfter, maxDays, defaultDays, now);
            var latest := now + (if maxDays > 0 then maxDays else defaultDays) * 24 * 3600 * 1_000_000_000
              + 60_000_000_000;
            && (r == Err(NotBeforeUnsupported) <==> notBeforeGiven)
            && (r == Err(NotATimestamp) <==> !notBeforeGiven && notAfter == Unparsable)
            && (r == Ok(None) <==> !notBeforeGiven && notAfter == Blank)
            && (!notBeforeGiven && notAfter.At? ==>
                  && (r == Err(NotInTheFuture) <==> notAfter.t <= now)
                  && (r == Err(BeyondMaximum) <==> now < notAfter.t && latest < notAfter.t)
                  && (r == Ok(Some(notAfter.t)) <==> now < notAfter.t <= latest))
  {
  }

  // ---------- finalize and signing ----------

  /** Days asked of the CA at `u` for an order that wants `t`. */
  function IssueDays(t: Instant, u: Instant): (days: int) {
    var days := CeilDays(t - u);
    if days < 1 then 1 else days
  }

  datatype Window = Window(notBefore: Instant, notAfter: Instant)

  /** The validity window Sign gives out at `now`, unless it would outlive the issuer. */
  function SignWindow(days: int, issuerNotAfter: Instant, now: Instant): Option<Window> {
    var d := if days <= 0 then 397 else days;
    if now > issuerNotAfter || now + d * DAY > issuerNotAfter then None
    else Some(Window(now - 5 * MINUTE, now + d * DAY))
  }

  /** Signing is refused exactly if it would outlive the issuer; 397 days unless a positive number is asked for. */
  lemma SignWindowExact(days: int, issuerNotAfter: Instant, now: Instant)
    ensures var until := now + (if days > 0 then days else 397) * 24 * 3600 * 1_000_000_000;
            && (SignWindow(days, issuerNotAfter, now).Some? <==> now <= issuerNotAfter && until <= issuerNotAfter)
            && (SignWindow(days, issuerNotAfter, now).Some? ==>
                  SignWindow(days, issuerNotAfter, now).value == Window(now - 300_000_000_000, until))
  {
  }

  function Encoded(w: Window): Window {
    Window(Whole(w.notBefore), Whole(w.notAfter))
  }

  /** An order placed at `placed`; its expiry checked at `checked`, the days counted at `u`, signed at `w`. */
  ghost predicate Timeline(placed: Instant, checked: Instant, u: Instant, w: Instant) {
    placed <= checked <= placed + ORDER_TTL && checked <= u <= w
  }

  /**
   * The issued expiry: within a day after the requested one while that is still ahead, within two when
   * it passed before the days were counted; later only by the time the request itself took.
   */
  lemma IssuedExpiryBounds(placed: Instant, t: Instant, checked: Instant, u: Instant, w: Instant,
      issuerNotAfter: Instant)
    requires Timeline(placed, checked, u, w) && placed < t
    requires SignWindow(IssueDays(t, u), issuerNotAfter, w).Some?
    ensures var e := SignWindow(IssueDays(t, u), issuerNotAfter, w).value.notAfter;
            && (t > u ==> t + (w - u) <= e < t + DAY + (w - u))
            && (t <= u ==> t + DAY <= e < t + 2 * DAY + (w - checked))
            && Whole(e) <= e && t - SECOND < Whole(e) && e <= issuerNotAfter
  {
    CeilBounds(t - u);
    WholeFacts(SignWindow(IssueDays(t, u), issuerNotAfter, w).value.notAfter, 0);
  }

  /** Never more than a day beyond the credential's maximum, and that one only inside the minute of slack. */
  lemma IssueDaysWithinMaximum(placed: Instant, t: Instant, u: Instant, maxDays: int, defaultDays: int)
    requires RequestedNotAfter(false, At(t), maxDays, defaultDays, placed) == Ok(Some(t)) && placed <= u
    requires MaxDays(maxDays, defaultDays) >= 1
    ensures 1 <= IssueDays(t, u) <= MaxDays(maxDays, defaultDays) + 1
    ensures IssueDays(t, u) == MaxDays(maxDays, defaultDays) + 1 <==> t > u + MaxDays(maxDays, defaultDays) * DAY
  {
    CeilBounds(t - u);
  }

  /** The encoded expiry is no earlier than the requested one, if the CA signs at all. */
  ghost predicate Covers(t: Instant, placed: Instant, checked: Instant, u: Instant, w: Instant) {
    Timeline(placed, checked, u, w) && placed < t ==> Whole(w + IssueDays(t, u) * DAY) >= t
  }

  /**
   * The certificate's own expiry is cut to whole seconds. It covers the requested instant, whenever the
   * order is placed and finalized, exactly when that instant is a whole second.
   */
  lemma EncodedExpiryCoversIff(t: Instant)
    ensures (forall placed, checked, u, w :: Covers(t, placed, checked, u, w)) <==> Whole(t) == t
  {
    if Whole(t) == t {
      forall placed, checked, u, w
        ensures Covers(t, placed, checked, u, w)
      {
        if u <= w {
          CeilBounds(t - u);
          WholeMonotone(t, w + IssueDays(t, u) * DAY);
        }
      }
    } else {
      var u := t - DAY;
      assert IssueDays(t, u) == 1;
      WholeFacts(t, 0);
      assert !Covers(t, u, u, u, u);
    }
  }

  /**
   * Half a second past a whole one: asked for a day ahead, granted, finalized at once and signed, the
   * certificate expires half a second before the instant the order asked for.
   */
  lemma HalfSecondIsLost()
    ensures var t := 20_000 * DAY + SECOND / 2;
            var placed := t - DAY;
            && RequestedNotAfter(false, At(t), 1, 1, placed) == Ok(Some(t))
            && Timeline(placed, placed, placed, placed)
            && SignWindow(IssueDays(t, placed), t + DAY, placed) == Some(Window(placed - 5 * MINUTE, t))
            && Encoded(Window(placed - 5 * MINUTE, t)).notAfter == t - SECOND / 2
  {
    assert CeilDays(DAY) == 1;
  }

  lemma WholeMonotone(a: Instant, b: Instant)
    requires a <= b
    ensures Whole(a) <= Whole(b)
  {
    assert a / SECOND <= b / SECOND;
  }

  // ---------- renewal ----------

  /** The day count of a replacement when the request names none. */
  function RenewDays(was: Window, defaultDays: int): int {
    var span := (was.notAfter - was.notBefore) / DAY;
    if span > 0 then span else defaultDays
  }

  /** A replacement gets the whole days its predecessor had, and the default where that is less than one. */
  lemma RenewDaysExact(was: Window, defaultDays: int, days: nat)
    requires days * (24 * 3600 * 1_000_000_000) <= was.notAfter - was.notBefore < (days
      + 1) * (24 * 3600 * 1_000_000_000)
    ensures RenewDays(was, defaultDays) == if days > 0 then days else defaultDays
  {
  }

  /** The stored windows of a certificate and its successive replacements, signed at these instants. */
  function RenewalChain(days: int, issuerNotAfter: Instant, defaultDays: int, times: seq<Instant>): Option<seq<Window>>
    decreases |times|
  {
    if times == [] then Some([])
    else
      match SignWindow(days, issuerNotAfter, times[0])
      case None => None
      case Some(w) =>
        match RenewalChain(RenewDays(Encoded(w), defaultDays), issuerNotAfter, defaultDays, times[1..])
        case None => None
        case Some(rest) => Some([Encoded(w)] + rest)
  }

  /** Encoding, backdating by five minutes and rounding down give back the day count. */
  lemma SpanIsKept(days: int, issuerNotAfter: Instant, now: Instant, defaultDays: int)
    requires days > 0 && SignWindow(days, issuerNotAfter, now).Some?
    ensures var w := Encoded(SignWindow(days, issuerNotAfter, now).value);
            w.notAfter - w.notBefore == days * DAY + 5 * MINUTE && RenewDays(w, defaultDays) == days
  {
    var w := SignWindow(days, issuerNotAfter, now).value;
    WholeFacts(w.notBefore, days * 86_400 + 300);
    assert w.notAfter == w.notBefore + (days * 86_400 + 300) * SECOND;
    assert (days * DAY + 5 * MINUTE) / DAY == days;
  }

  /** Along any chain of renewals without an explicit day count, every certificate has the first one's span. */
  lemma {:induction false} RenewalKeepsSpan(days: int, issuerNotAfter: Instant, defaultDays: int, times: seq<Instant>)
    requires days > 0 && RenewalChain(days, issuerNotAfter, defaultDays, times).Some?
    ensures var ws := RenewalChain(days, issuerNotAfter, defaultDays, times).value;
            && |ws| == |times|
            && forall i :: 0 <= i < |ws| ==>
                 ws[i].notAfter - ws[i].notBefore == days * DAY + 5 * MINUTE && RenewDays(ws[i], defaultDays) == days
    decreases |times|
  {
    if times != [] {
      SpanIsKept(days, issuerNotAfter, times[0], defaultDays);
      RenewalKeepsSpan(days, issuerNotAfter, defaultDays, times[1..]);
    }
  }
}
