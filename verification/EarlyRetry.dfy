/**
 A run in which FailJob makes a job due before it was.

 With the largest base delay a request can carry (as the nearest float64, which is what the metadata JSON holds), the
 backoff of the first attempt is refused for being beyond 32 bits, the lease runs out instead, and the backoff of the
 second attempt has wrapped to -2048 ms, which Postgres takes.
 */
module EarlyRetry {
  import opened Wrappers
  import opened Jobs
  import Backoff
  import Lifecycle
  import SingleJob

  const BASE: Millis := 0x7fff_ffff_ffff_fc00

  const POLICY := Metadata("exponential", Some(BASE), false)

  const OPTIONS := CreateOpts(SingleJob.QUEUE, "kind", "", POLICY, 25, 1, None, false)

  /** The first instant at which a lease taken at 0 has lapsed. */
  function Late(c: Config): nat {
    c.lockNs / 1_000_000 + 1
  }

  function Steps(c: Config): seq<Step> {
    [ SingleJob.Upsert(), SingleJob.Insert(OPTIONS), SingleJob.ClaimBy("worker", 0), FirstFailure(),
      SingleJob.Expire(Late(c)), SingleJob.PromoteDue(Late(c)), SingleJob.ClaimBy("worker", Late(c)), SecondFailure(c) ]
  }

  function FirstFailure(): Step {
    Step(0, FailJob(0, "failed", BASE))
  }

  function SecondFailure(c: Config): Step {
    Step(Late(c), FailJob(0, "failed", -2048))
  }

  function Created(): Job {
    SingleJob.Created(Postgres, OPTIONS)
  }

  function Claimed(c: Config): Job {
    SingleJob.ClaimedRow(c, Created(), "worker", 0)
  }

  function Reaped(c: Config): Job {
    SingleJob.ExpiredRow(c, Claimed(c), Late(c))
  }

  function ClaimedAgain(c: Config): Job {
    SingleJob.ClaimedRow(c, Reaped(c).(status := Available), "worker", Late(c))
  }

  function Retried(c: Config): Job {
    Changed(ClaimedAgain(c), Fail(ErrorEntry(Late(c), "failed"), Late(c), Some(Late(c) - 2048)))
  }

  lemma UpToFirstClaim(c: Config)
    requires c.dialect.Postgres?
    ensures Lifecycle.Reaches(c, EMPTY, Steps(c)[..3], SingleJob.With(Claimed(c)))
  {
    SingleJob.Create(c, OPTIONS);
    assert Steps(c)[..2] == [SingleJob.Upsert(), SingleJob.Insert(OPTIONS)];
    SingleJob.ThenClaim(c, Steps(c)[..2], Created(), "worker", 0);
    assert Steps(c)[..3] == Steps(c)[..2] + [SingleJob.ClaimBy("worker", 0)];
  }

  lemma FirstFailureRefused(c: Config)
    requires c.dialect.Postgres?
    ensures Result(c, SingleJob.With(Claimed(c)), FirstFailure()) == ErrDatabase
    ensures Lifecycle.Reaches(c, EMPTY, Steps(c)[..4], SingleJob.With(Claimed(c)))
  {
    UpToFirstClaim(c);
    SingleJob.ThenStep(c, Steps(c)[..3], Claimed(c), FirstFailure());
    assert Steps(c)[..4] == Steps(c)[..3] + [FirstFailure()];
  }

  lemma UpToExpiry(c: Config)
    requires c.dialect.Postgres?
    ensures Lifecycle.Reaches(c, EMPTY, Steps(c)[..5], SingleJob.With(Reaped(c)))
  {
    FirstFailureRefused(c);
    SingleJob.ThenExpire(c, Steps(c)[..4], Claimed(c), Late(c));
    assert Steps(c)[..5] == Steps(c)[..4] + [SingleJob.Expire(Late(c))];
  }

  lemma UpToSecondClaim(c: Config)
    requires c.dialect.Postgres?
    ensures Lifecycle.Reaches(c, EMPTY, Steps(c)[..7], SingleJob.With(ClaimedAgain(c)))
  {
    UpToExpiry(c);
    SingleJob.ThenPromote(c, Steps(c)[..5], Reaped(c), Late(c));
    assert Steps(c)[..6] == Steps(c)[..5] + [SingleJob.PromoteDue(Late(c))];
    SingleJob.ThenClaim(c, Steps(c)[..6], Reaped(c).(status := Available), "worker", Late(c));
    assert Steps(c)[..7] == Steps(c)[..6] + [SingleJob.ClaimBy("worker", Late(c))];
  }

  lemma UpToSecondFailure(c: Config)
    requires c.dialect.Postgres?
    ensures Lifecycle.Reaches(c, EMPTY, Steps(c), SingleJob.With(Retried(c)))
  {
    UpToSecondClaim(c);
    SingleJob.ThenStep(c, Steps(c)[..7], ClaimedAgain(c), SecondFailure(c));
    assert Steps(c) == Steps(c)[..7] + [SecondFailure(c)];
  }

  lemma Wraps(beyond: Int64)
    ensures Backoff.Unjittered(POLICY, 1, beyond) == BASE && Backoff.Unjittered(POLICY, 2, beyond) == -2048
  {
    assert Backoff.Pow2(0) == 1 && Backoff.Pow2(1) == 2;
    assert Wrap64(BASE * 2) == -2048;
  }

  lemma Delays(c: Config, beyond: Int64)
    requires c.dialect.Postgres?
    ensures Backoff.IsDelay(Claimed(c).metadata, Claimed(c).attempt, beyond, Some(FirstFailure().event.backoffMs))
    ensures Backoff.MovesBack(c, SecondFailure(c), ClaimedAgain(c), beyond)
    ensures Retried(c).scheduledAt == ClaimedAgain(c).scheduledAt - 2048
  {
    Wraps(beyond);
    assert Claimed(c).metadata == POLICY && Claimed(c).attempt == 1;
    assert ClaimedAgain(c).metadata == POLICY && ClaimedAgain(c).attempt == 2;
  }

  lemma Passed(c: Config)
    requires c.dialect.Postgres?
    ensures Jobs.Valid(c, EMPTY, Steps(c)) && Clocked(Steps(c))
    ensures At(c, EMPTY, Steps(c), 3) == SingleJob.With(Claimed(c))
    ensures At(c, EMPTY, Steps(c), 7) == SingleJob.With(ClaimedAgain(c))
    ensures At(c, EMPTY, Steps(c), 8) == SingleJob.With(Retried(c))
  {
    UpToFirstClaim(c);
    UpToSecondClaim(c);
    UpToSecondFailure(c);
    SingleJob.ReachedAt(c, Steps(c), 3, SingleJob.With(Claimed(c)));
    SingleJob.ReachedAt(c, Steps(c), 7, SingleJob.With(ClaimedAgain(c)));
  }

  /** The run is possible, its two backoffs are the delays of the policy, Postgres refuses the first, and the second
      moves the due time of the job back by two seconds. */
  lemma RetryMovesBack(lockNs: nat, beyond: Int64)
    ensures var c := Config(Postgres, lockNs);
      && Jobs.Valid(c, EMPTY, Steps(c)) && Clocked(Steps(c))
      && At(c, EMPTY, Steps(c), 3) == SingleJob.With(Claimed(c)) && Steps(c)[3] == FirstFailure()
      && Backoff.IsDelay(Claimed(c).metadata, Claimed(c).attempt, beyond, Some(FirstFailure().event.backoffMs))
      && Result(c, SingleJob.With(Claimed(c)), FirstFailure()) == ErrDatabase
      && At(c, EMPTY, Steps(c), 7) == SingleJob.With(ClaimedAgain(c)) && Steps(c)[7] == SecondFailure(c)
      && Backoff.MovesBack(c, SecondFailure(c), ClaimedAgain(c), beyond)
      && At(c, EMPTY, Steps(c), 8) == SingleJob.With(Retried(c))
      && Retried(c).scheduledAt == ClaimedAgain(c).scheduledAt - 2048
  {
    var c := Config(Postgres, lockNs);
    Passed(c);
    FirstFailureRefused(c);
    Delays(c, beyond);
  }
}
