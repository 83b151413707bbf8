/** The OTP use cases over the Redis repository, proved against the steps of `Otp`. */
module AuthUsecase {
  import opened Prelude
  import opened Domain
  import opened EmployeeIds
  import opened Otp

  class OtpStore {
    var entries: Vault

    constructor ()
      ensures entries == map[]
    {
      entries := map[];
    }

    method SetOTP(email: string, otp: string, now: int, lifetime: int, w: Write) returns (ok: bool)
      modifies this
      ensures ok == w.Done?
      ensures entries == if w.Applied() then old(entries)[Key(email) := Entry(otp, now + lifetime)] else old(entries)
    {
      if w.Applied() {
        entries := entries[Key(email) := Entry(otp, now + lifetime)];
      }
      return w.Done?;
    }

    method GetOTP(email: string, now: int, fails: bool) returns (otp: Option<string>)
      ensures otp == if fails then None else Read(entries, email, now)
    {
      if fails || Key(email) !in entries || entries[Key(email)].expiresAt <= now {
        return None;
      }
      return Some(entries[Key(email)].code);
    }

    method DeleteOTP(email: string, w: Write) returns (ok: bool)
      modifies this
      ensures ok == w.Done?
      ensures entries == if w.Applied() then old(entries) - {Key(email)} else old(entries)
    {
      if w.Applied() {
        entries := entries - {Key(email)};
      }
      return w.Done?;
    }
  }

  class Usecase {
    const store: OtpStore
    const registered: set<string>

    constructor (store: OtpStore, registered: set<string>)
      ensures this.store == store && this.registered == registered
    {
      this.store, this.registered := store, registered;
    }

    method RequestOTP(now: int, email: string, drawn: SixDigits, f: OtpFaults) returns (reply: OtpReply)
      modifies store
      ensures (store.entries, reply) == RequestStep(registered, old(store.entries), Act(now, email, Otp.RequestOTP(drawn), f))
    {
      if f.findEmployee || email !in registered {
        return Rejected(EmailNotRegistered);
      }
      var otpCode := ZeroPad(drawn, 6);
      var ok := store.SetOTP(email, otpCode, now, LIFETIME, f.store);
      if !ok {
        return Rejected(GenerateFailed);
      }
      if f.enqueue {
        return Rejected(QueueFailed);
      }
      return Sent;
    }

    method VerifyOTP(now: int, email: string, otp: string, f: OtpFaults) returns (reply: OtpReply)
      modifies store
      ensures (store.entries, reply) == VerifyStep(registered, old(store.entries), Act(now, email, Otp.VerifyOTP(otp), f))
    {
      var saved := store.GetOTP(email, now, f.get);
      if saved.None? {
        return Rejected(ExpiredOrNotFound);
      }
      if saved.value != otp {
        return Rejected(InvalidOtp);
      }
      if f.findEmployee || email !in registered {
        return Rejected(NoSuchEmployee);
      }
      var _ := store.DeleteOTP(email, f.delete);
      if f.token {
        return Rejected(TokenFailed);
      }
      return Token;
    }
  }
}
