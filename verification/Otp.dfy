/** One-time passwords: an expiring key-value store, overwritten by each request and emptied by each success. */
module Otp {
  import opened Prelude
  import opened Clock
  import opened Domain
  import opened EmployeeIds

  const LIFETIME: int := 5 * MINUTE

  datatype Entry = Entry(code: string, expiresAt: int)

  /** Redis keys to entries; an entry is gone once its lifetime has passed. */
  type Vault = map<string, Entry>

  function Key(email: string): string {
    "otp:" + email
  }

  function Read(v: Vault, email: string, now: int): Option<string> {
    if Key(email) in v && now < v[Key(email)].expiresAt then Some(v[Key(email)].code) else None
  }

  type SixDigits = n: nat | n < 1_000_000

  /** The drawn number as the mail shows it: `%06d`. */
  function CodeFor(n: SixDigits): string {
    ZeroPad(n, 6)
  }

  datatype OtpFaults = OtpFaults(findEmployee: bool, store: Write, enqueue: bool, get: bool, delete: Write, token: bool)

  datatype OtpCall = RequestOTP(drawn: SixDigits) | VerifyOTP(otp: string)

  datatype Act = Act(now: int, email: string, call: OtpCall, faults: OtpFaults)

  datatype OtpError =
    | EmailNotRegistered | GenerateFailed | QueueFailed
    | ExpiredOrNotFound | InvalidOtp | NoSuchEmployee | TokenFailed

  datatype OtpReply = Sent | Token | Rejected(error: OtpError)

  predicate Finds(registered: set<string>, a: Act) {
    !a.faults.findEmployee && a.email in registered
  }

  function RequestStep(registered: set<string>, v: Vault, a: Act): (Vault, OtpReply)
    requires a.call.RequestOTP?
  {
    if !Finds(registered, a) then (v, Rejected(EmailNotRegistered))
    else
      var stored := if a.faults.store.Applied() then v[Key(a.email) := Entry(CodeFor(a.call.drawn), a.now + LIFETIME)] else v;
      (stored,
       if !a.faults.store.Done? then Rejected(GenerateFailed)
       else if a.faults.enqueue then Rejected(QueueFailed)
       else Sent)
  }

  function VerifyStep(registered: set<string>, v: Vault, a: Act): (Vault, OtpReply)
    requires a.call.VerifyOTP?
  {
    var saved := Read(v, a.email, a.now);
    if a.faults.get || saved.None? then (v, Rejected(ExpiredOrNotFound))
    else if saved.value != a.call.otp then (v, Rejected(InvalidOtp))
    else if !Finds(registered, a) then (v, Rejected(NoSuchEmployee))
    else (if a.faults.delete.Applied() then v - {Key(a.email)} else v,
          if a.faults.token then Rejected(TokenFailed) else Token)
  }

  function OtpStep(registered: set<string>, v: Vault, a: Act): (Vault, OtpReply) {
    if a.call.RequestOTP? then RequestStep(registered, v, a) else VerifyStep(registered, v, a)
  }

  /** The store after a run from empty. */
  function VaultAfter(registered: set<string>, acts: seq<Act>): Vault {
    if acts == [] then map[] else OtpStep(registered, VaultAfter(registered, acts[..|acts| - 1]), acts[|acts| - 1]).0
  }

  function ReplyAt(registered: set<string>, acts: seq<Act>, i: nat): OtpReply
    requires i < |acts|
  {
    OtpStep(registered, VaultAfter(registered, acts[..i]), acts[i]).1
  }

  // ---- one call, exactly ----

  ghost predicate Registered(registered: set<string>, a: Act) {
    a.email in registered && !a.faults.findEmployee
  }

  /** After a request that stored its code: that code for that email for three hundred seconds, all else as it was. */
  ghost predicate OnlyStored(v: Vault, v': Vault, a: Act)
    requires a.call.RequestOTP?
  {
    && Key(a.email) in v' && v'[Key(a.email)].code == CodeFor(a.call.drawn)
    && v'[Key(a.email)].expiresAt == a.now + 300_000_000
    && forall k :: k != Key(a.email) ==> (k in v' <==> k in v) && (k in v ==> v'[k] == v[k])
  }

  /**
    A request answers Sent exactly when the employee is found, the code stored and acknowledged, and the mail queued,
    and each rejection has its own cause. A new code is left behind by every request whose store took effect: by all that
    answer Sent or QueueFailed, and by those that answer GenerateFailed although the code was stored.
   */
  lemma RequestExactly(registered: set<string>, v: Vault, a: Act)
    requires a.call.RequestOTP?
    ensures var (v', reply) := OtpStep(registered, v, a);
            && (reply == Sent <==> Registered(registered, a) && a.faults.store.Done? && !a.faults.enqueue)
            && (reply == Rejected(EmailNotRegistered) <==> !Registered(registered, a))
            && (reply == Rejected(GenerateFailed) <==> Registered(registered, a) && !a.faults.store.Done?)
            && (reply == Rejected(QueueFailed) <==> Registered(registered, a) && a.faults.store.Done? && a.faults.enqueue)
            && if Registered(registered, a) && !a.faults.store.Refused? then OnlyStored(v, v', a) else v' == v
  {
  }

  /** The store holds this code for the email and its lifetime has not passed. */
  ghost predicate Live(v: Vault, email: string, now: int, code: string) {
    Key(email) in v && now < v[Key(email)].expiresAt && v[Key(email)].code == code
  }

  ghost predicate NothingLive(v: Vault, email: string, now: int) {
    Key(email) in v ==> v[Key(email)].expiresAt <= now
  }

  ghost predicate OnlyRemoved(v: Vault, v': Vault, email: string) {
    Key(email) !in v' && forall k :: k != Key(email) ==> (k in v' <==> k in v) && (k in v ==> v'[k] == v[k])
  }

  /** A verification answers with a token, or with each rejection exactly on its own cause, and removes what it accepted. */
  lemma VerificationExactly(registered: set<string>, v: Vault, a: Act)
    requires a.call.VerifyOTP?
    ensures var (v', reply) := OtpStep(registered, v, a);
            var accepts := !a.faults.get && Live(v, a.email, a.now, a.call.otp) && Registered(registered, a);
            && (reply == Token <==> accepts && !a.faults.token)
            && (reply == Rejected(ExpiredOrNotFound) <==> a.faults.get || NothingLive(v, a.email, a.now))
            && (reply == Rejected(InvalidOtp) <==>
                !a.faults.get && !NothingLive(v, a.email, a.now) && !Live(v, a.email, a.now, a.call.otp))
            && (reply == Rejected(NoSuchEmployee) <==>
                !a.faults.get && Live(v, a.email, a.now, a.call.otp) && !Registered(registered, a))
            && (reply == Rejected(TokenFailed) <==> accepts && a.faults.token)
            && if accepts && !a.faults.delete.Refused? then OnlyRemoved(v, v', a.email) else v' == v
  {
  }

  // ---- which request an email's code comes from ----

  /** The request put a code in the store, whether or not the mail could be queued. */
  predicate Stores(registered: set<string>, a: Act) {
    a.call.RequestOTP? && Finds(registered, a) && a.faults.store.Applied()
  }

  /** The verification removed the code, whether or not a token could be signed. */
  predicate Removes(registered: set<string>, v: Vault, a: Act) {
    && a.call.VerifyOTP? && !a.faults.get && Read(v, a.email, a.now) == Some(a.call.otp)
    && Finds(registered, a) && a.faults.delete.Applied()
  }

  predicate Touches(registered: set<string>, acts: seq<Act>, i: nat, email: string)
    requires i < |acts|
  {
    acts[i].email == email &&
    (Stores(registered, acts[i]) || Removes(registered, VaultAfter(registered, acts[..i]), acts[i]))
  }

  /** The last request that stored a code for the email, if nothing stored or removed one since. */
  ghost predicate Current(registered: set<string>, acts: seq<Act>, email: string, j: nat) {
    && j < |acts| && acts[j].email == email && Stores(registered, acts[j])
    && forall k :: j < k < |acts| ==> !Touches(registered, acts, k, email)
  }

  function Origin(registered: set<string>, acts: seq<Act>, email: string): Option<nat> {
    if acts == [] then None
    else if !Touches(registered, acts, |acts| - 1, email) then Origin(registered, acts[..|acts| - 1], email)
    else if Stores(registered, acts[|acts| - 1]) then Some(|acts| - 1)
    else None
  }

  lemma KeysDiffer(e: string, e': string)
    requires e != e'
    ensures Key(e) != Key(e')
  {
    assert Key(e)[4..] == e && Key(e')[4..] == e';
  }

  lemma {:induction false} OriginIsCurrent(registered: set<string>, acts: seq<Act>, email: string, j: nat)
    ensures Origin(registered, acts, email) == Some(j) <==> Current(registered, acts, email, j)
  {
    if acts != [] {
      var n := |acts| - 1;
      var init := acts[..n];
      OriginIsCurrent(registered, init, email, j);
      assert forall k :: 0 <= k < n ==> init[..k] == acts[..k];
      assert forall k :: 0 <= k < n ==> Touches(registered, init, k, email) == Touches(registered, acts, k, email);
    }
  }

  /** The store holds, for each email, exactly the code and deadline of its current request. */
  lemma {:induction false} VaultHoldsCurrent(registered: set<string>, acts: seq<Act>, email: string)
    ensures var j, v := Origin(registered, acts, email), VaultAfter(registered, acts);
            match j
            case None => Key(email) !in v
            case Some(i) => i < |acts| && Stores(registered, acts[i]) && Key(email) in v
                            && v[Key(email)] == Entry(CodeFor(acts[i].call.drawn), acts[i].now + LIFETIME)
  {
    if acts != [] {
      var init, a := acts[..|acts| - 1], acts[|acts| - 1];
      VaultHoldsCurrent(registered, init, email);
      if a.email != email {
        KeysDiffer(a.email, email);
      }
    }
  }

  // ---- the main results ----

  /** A request stored this code for this email, less than five minutes before, and is still the current one. */
  ghost predicate Entitles(registered: set<string>, acts: seq<Act>, i: nat, j: nat)
    requires i < |acts| && acts[i].call.VerifyOTP?
  {
    && Current(registered, acts[..i], acts[i].email, j)
    && CodeFor(acts[j].call.drawn) == acts[i].call.otp
    && acts[i].now < acts[j].now + LIFETIME
  }

  /** A verification succeeds exactly when a current request entitles it and none of its own calls fails. */
  lemma {:induction false} VerifyExactly(registered: set<string>, acts: seq<Act>, i: nat)
    requires i < |acts| && acts[i].call.VerifyOTP?
    ensures ReplyAt(registered, acts, i).Token? <==>
            && !acts[i].faults.get && !acts[i].faults.token && Finds(registered, acts[i])
            && exists j: nat :: Entitles(registered, acts, i, j)
  {
    var before, email := acts[..i], acts[i].email;
    VaultHoldsCurrent(registered, before, email);
    var origin := Origin(registered, before, email);
    if origin.Some? {
      OriginIsCurrent(registered, before, email, origin.value);
      if ReplyAt(registered, acts, i).Token? {
        assert Entitles(registered, acts, i, origin.value);
      }
    }
    forall j: nat | Entitles(registered, acts, i, j) ensures origin == Some(j) {
      OriginIsCurrent(registered, before, email, j);
    }
  }

  predicate Succeeds(registered: set<string>, acts: seq<Act>, i: nat)
    requires i < |acts|
  {
    ReplyAt(registered, acts, i).Token?
  }

  /** Whenever a verification succeeds its DeleteOTP, whose error is ignored, takes effect. */
  ghost predicate DeletesTakeEffect(registered: set<string>, acts: seq<Act>) {
    forall i :: 0 <= i < |acts| && Succeeds(registered, acts, i) ==> acts[i].faults.delete.Applied()
  }

  /** The request a successful verification is matched to. */
  function MatchOf(registered: set<string>, acts: seq<Act>, i: nat): nat
    requires i < |acts|
  {
    var j := Origin(registered, acts[..i], acts[i].email);
    if j.Some? then j.value else 0
  }

  /** Same email, same code, under five minutes older, and no request or success for the email in between. */
  ghost predicate Matched(registered: set<string>, acts: seq<Act>, j: nat, i: nat)
    requires i < |acts| && acts[i].call.VerifyOTP?
  {
    && j < i && Stores(registered, acts[j]) && acts[j].email == acts[i].email
    && CodeFor(acts[j].call.drawn) == acts[i].call.otp
    && 0 <= acts[i].now - acts[j].now < LIFETIME
    && forall k :: j < k < i && acts[k].email == acts[i].email ==>
         !Stores(registered, acts[k]) && !Succeeds(registered, acts, k)
  }

  lemma SuccessRemoves(registered: set<string>, acts: seq<Act>, i: nat)
    requires i < |acts| && Succeeds(registered, acts, i) && acts[i].faults.delete.Applied()
    ensures acts[i].call.VerifyOTP? && Touches(registered, acts, i, acts[i].email)
  {
  }

  lemma {:induction false} SuccessIsMatched(registered: set<string>, acts: seq<Act>, i: nat)
    requires DeletesTakeEffect(registered, acts) && i < |acts| && Succeeds(registered, acts, i)
    requires forall k, l :: 0 <= k < l < |acts| ==> acts[k].now <= acts[l].now
    ensures acts[i].call.VerifyOTP? && Matched(registered, acts, MatchOf(registered, acts, i), i)
  {
    assert acts[i].call.VerifyOTP?;
    VerifyExactly(registered, acts, i);
    var j: nat :| Entitles(registered, acts, i, j);
    var before := acts[..i];
    OriginIsCurrent(registered, before, acts[i].email, j);
    forall k | j < k < i && acts[k].email == acts[i].email
      ensures !Stores(registered, acts[k]) && !Succeeds(registered, acts, k)
    {
      assert !Touches(registered, before, k, acts[i].email);
      assert before[..k] == acts[..k];
      if Succeeds(registered, acts, k) {
        SuccessRemoves(registered, acts, k);
      }
    }
  }

  /**
    OTP matching: over every run in which deletions take effect, each successful verification is matched to an earlier
    request for its email with its code, under five minutes old, with no request or success for the email in between;
    and no request is matched twice.
   */
  lemma {:induction false} OtpMatching(registered: set<string>, acts: seq<Act>)
    requires DeletesTakeEffect(registered, acts)
    requires forall k, l :: 0 <= k < l < |acts| ==> acts[k].now <= acts[l].now
    ensures forall i :: 0 <= i < |acts| && Succeeds(registered, acts, i) ==>
              acts[i].call.VerifyOTP? && Matched(registered, acts, MatchOf(registered, acts, i), i)
    ensures forall i, i' :: 0 <= i < i' < |acts| && Succeeds(registered, acts, i) && Succeeds(registered, acts, i') ==>
              MatchOf(registered, acts, i) != MatchOf(registered, acts, i')
  {
    forall i | 0 <= i < |acts| && Succeeds(registered, acts, i)
      ensures acts[i].call.VerifyOTP? && Matched(registered, acts, MatchOf(registered, acts, i), i)
    {
      SuccessIsMatched(registered, acts, i);
    }
  }

  /**
    A code that was reported as sent works: after Sent, the first call for that email that follows within five minutes,
    if it is a verification with the drawn code and none of its own calls fails, answers with a token.
   */
  lemma {:induction false} SentCodeWorks(registered: set<string>, acts: seq<Act>, i: nat, k: nat)
    requires i < k < |acts| && acts[i].call.RequestOTP? && ReplyAt(registered, acts, i) == Sent
    requires acts[k].email == acts[i].email && acts[k].call == VerifyOTP(CodeFor(acts[i].call.drawn))
    requires acts[k].now < acts[i].now + 300_000_000
    requires forall m :: i < m < k ==> acts[m].email != acts[i].email
    requires !acts[k].faults.get && !acts[k].faults.findEmployee && !acts[k].faults.token
    ensures ReplyAt(registered, acts, k) == Token
  {
    var email := acts[i].email;
    RequestExactly(registered, VaultAfter(registered, acts[..i]), acts[i]);
    assert Stores(registered, acts[i]);
    CurrentIn(registered, acts, k, email, i);
    assert Entitles(registered, acts, k, i);
    VerifyExactly(registered, acts, k);
  }

  /** The code that succeeded at `i` is sent again at `k`, in its lifetime, with no newer code stored, and no call fails. */
  ghost predicate SentAgain(registered: set<string>, acts: seq<Act>, i: nat, k: nat) {
    && i < k < |acts| && Succeeds(registered, acts, i) && acts[i].call.VerifyOTP?
    && acts[k].call == acts[i].call && acts[k].email == acts[i].email
    && MatchOf(registered, acts, i) < |acts| && acts[k].now < acts[MatchOf(registered, acts, i)].now + LIFETIME
    && (forall m :: i < m < k && acts[m].email == acts[i].email ==> !Stores(registered, acts[m]))
    && !acts[k].faults.get && !acts[k].faults.token && !acts[k].faults.findEmployee
  }

  /** No deletion for the email took effect from `i` up to `k`. */
  ghost predicate NotRemoved(registered: set<string>, acts: seq<Act>, i: nat, k: nat, email: string)
    requires i < k < |acts|
  {
    forall m :: i <= m < k && acts[m].email == email ==> !Removes(registered, VaultAfter(registered, acts[..m]), acts[m])
  }

  lemma CurrentIn(registered: set<string>, acts: seq<Act>, k: nat, email: string, j: nat)
    requires k < |acts|
    ensures Current(registered, acts[..k], email, j) <==>
            && j < k && acts[j].email == email && Stores(registered, acts[j])
            && forall m :: j < m < k ==> !Touches(registered, acts, m, email)
  {
    forall m | 0 <= m < k ensures Touches(registered, acts[..k], m, email) == Touches(registered, acts, m, email) {
      assert acts[..k][..m] == acts[..m];
    }
  }

  /** The request behind a success is still the current one later exactly when nothing was removed since. */
  lemma StillCurrent(registered: set<string>, acts: seq<Act>, i: nat, k: nat, email: string, j: nat)
    requires i < k < |acts| && Current(registered, acts[..i], email, j)
    requires forall m :: i <= m < k && acts[m].email == email ==> !Stores(registered, acts[m])
    ensures Current(registered, acts[..k], email, j) <==> NotRemoved(registered, acts, i, k, email)
    ensures forall j': nat :: Current(registered, acts[..k], email, j') ==> j' == j
  {
    CurrentIn(registered, acts, i, email, j);
    CurrentIn(registered, acts, k, email, j);
    forall j': nat | Current(registered, acts[..k], email, j') ensures j' == j {
      CurrentIn(registered, acts, k, email, j');
      assert Touches(registered, acts, j, email) && Touches(registered, acts, j', email);
    }
    forall m | j < m < k
      ensures !Touches(registered, acts, m, email) <==>
              m < i || acts[m].email != email || !Removes(registered, VaultAfter(registered, acts[..m]), acts[m])
    {
    }
  }

  /**
    A code is good for a second success exactly when no deletion has taken effect since the first,
    the first one's own included: over every run, whatever is requested and verified in between.
   */
  lemma {:induction false} ReuseExactly(registered: set<string>, acts: seq<Act>, i: nat, k: nat)
    requires SentAgain(registered, acts, i, k)
    ensures Succeeds(registered, acts, k) <==> NotRemoved(registered, acts, i, k, acts[i].email)
  {
    VerifyExactly(registered, acts, i);
    VerifyExactly(registered, acts, k);
    var j: nat :| Entitles(registered, acts, i, j);
    OriginIsCurrent(registered, acts[..i], acts[i].email, j);
    StillCurrent(registered, acts, i, k, acts[i].email, j);
    assert Entitles(registered, acts, k, j) <==> Current(registered, acts[..k], acts[i].email, j);
  }

  /** The mailed code always has six digits, as the verification request demands, and tells the drawn number. */
  lemma CodesHaveSixDigits(n: SixDigits)
    ensures |CodeFor(n)| == 6 && Digits(CodeFor(n)) && Value(CodeFor(n)) == n
  {
    ZeroPadValue(n, 6);
    assert Pow10(6) == 1000000;
    DecLength(n, 6);
  }
}
