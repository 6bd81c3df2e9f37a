/** The per-publisher limiter of the descriptor stores. */
module StoreRateLimiter {
  import opened Descriptors
  import opened SlidingWindow

  const RATE_LIMIT_PER_MINUTE: nat := 10
  const RATE_LIMIT_WINDOW_MICROS: nat := 60_000_000

  function AdmitStore(entries: seq<nat>, now: nat): Verdict {
    Admit(entries, now, RATE_LIMIT_WINDOW_MICROS, RATE_LIMIT_PER_MINUTE)
  }

  /** A store is allowed when fewer than ten were recorded in the last minute; only then is it recorded. */
  lemma AllowedExactly(entries: seq<nat>, now: nat)
    ensures var v := AdmitStore(entries, now);
            && (v.allowed <==> |set i: nat | i < |entries| && now < entries[i] + 60_000_000| < 10)
            && forall x :: x in v.entries <==> (x in entries && now < x + 60_000_000) || (v.allowed && x == now)
  {
    KeptExactly(entries, now, RATE_LIMIT_WINDOW_MICROS);
    assert Covered(entries, now, RATE_LIMIT_WINDOW_MICROS)
        == set i: nat | i < |entries| && now < entries[i] + 60_000_000;
    hide Prune;
  }

  class RateLimiter {
    var timestamps: map<Identity, seq<nat>>

    constructor ()
      ensures timestamps == map[]
    {
      timestamps := map[];
    }

    method CheckAndRecord(publisher: Identity, now: nat) returns (allowed: bool)
      modifies this
      ensures (timestamps, allowed)
        == AdmitKey(old(timestamps), publisher, now, RATE_LIMIT_WINDOW_MICROS, RATE_LIMIT_PER_MINUTE)
    {
      var entries := if publisher in timestamps then timestamps[publisher] else [];
      entries := Prune(entries, now, RATE_LIMIT_WINDOW_MICROS);
      if |entries| >= RATE_LIMIT_PER_MINUTE {
        timestamps := timestamps[publisher := entries];
        return false;
      }
      entries := entries + [now];
      timestamps := timestamps[publisher := entries];
      return true;
    }
  }

  const STORE_LIMIT: Identity -> nat := (who: Identity) => RATE_LIMIT_PER_MINUTE

  /**
   The limiter decides every run over a clock as the complete log does exactly when the clock
   is steady: it reads `SystemTime`, which may be set back.
   */
  lemma StoreLimiterExactly(who: Identity, clock: seq<nat>)
    ensures AgreesOn(clock, RATE_LIMIT_WINDOW_MICROS, STORE_LIMIT, RATE_LIMIT_WINDOW_MICROS)
       <==> Steady(clock, RATE_LIMIT_WINDOW_MICROS)
  {
    SteadyExactly(who, clock, RATE_LIMIT_WINDOW_MICROS, STORE_LIMIT, RATE_LIMIT_WINDOW_MICROS);
  }

  /** Set back by a minute, the clock makes the limiter forget an operation that counts again. */
  lemma BackwardClockDiffers(who: Identity, at: nat)
    ensures var run := ForgetfulRun(who, at, at + RATE_LIMIT_WINDOW_MICROS, at, RATE_LIMIT_PER_MINUTE);
            PrunedRun(map[], run, RATE_LIMIT_WINDOW_MICROS, STORE_LIMIT, RATE_LIMIT_WINDOW_MICROS)
              != FullRun(map[], run, RATE_LIMIT_WINDOW_MICROS, STORE_LIMIT)
  {
    ForgetfulRunDiffers(who, at, at + RATE_LIMIT_WINDOW_MICROS, at,
                        RATE_LIMIT_WINDOW_MICROS, STORE_LIMIT, RATE_LIMIT_WINDOW_MICROS);
  }
}
