/** `scripts/backfill_trial_expiry.py`: a plan is made from one reading of the tenants and applied to
    whatever the tenants have become. Times are seconds. */
module TrialExpiry {
  import opened Prelude
  import opened PyText

  datatype Lifecycle = Active | Trial | Demo | ReadOnly

  datatype Tenant = Tenant(plan: string, lifecycle: Lifecycle, expiresAt: Option<int>, owner: Option<nat>,
                           trialStartedAt: Option<int>, createdAt: Option<int>)

  type Tenants = map<nat, Tenant>

  /** Each user's `trial_ends_at`. */
  type Users = map<nat, Option<int>>

  const DAY := 86400

  const CONVERTED_PLANS: set<string> := {"starter", "pro", "enterprise", "payg", "beta"}

  predicate Converted(t: Tenant) {
    Lower(t.plan) in CONVERTED_PLANS
  }

  /** The end of the trial a tenant was given at signup, when it is one the backfill is for. */
  function TrialEnd(t: Tenant, users: Users): Option<int> {
    if t.expiresAt.None? && t.lifecycle == Active && !Converted(t) && t.owner.Some? && t.owner.value in users
    then users[t.owner.value] else None
  }

  /** The expiry planned for a trial that ends at `ends`. */
  function PlannedExpiry(ends: int, now: int, graceDays: int): int {
    if ends > now then ends else if graceDays > 0 then now + graceDays * DAY else ends
  }

  datatype Planned = Planned(tenant: nat, expiresAt: int)

  /** The plan holds one row for each tenant with a trial end, and no other. */
  ghost predicate IsPlan(rows: seq<Planned>, tenants: Tenants, users: Users, now: int, graceDays: int) {
    && (forall p :: p in rows <==>
          && p.tenant in tenants && TrialEnd(tenants[p.tenant], users).Some?
          && p.expiresAt == PlannedExpiry(TrialEnd(tenants[p.tenant], users).value, now, graceDays))
    && (forall i, j :: 0 <= i < j < |rows| ==> rows[i].tenant != rows[j].tenant)
  }

  function Written(t: Tenant, expiresAt: int, now: int): Tenant {
    t.(lifecycle := Trial, plan := "trial", expiresAt := Some(expiresAt),
       trialStartedAt := if t.trialStartedAt.Some? then t.trialStartedAt
                         else if t.createdAt.Some? then t.createdAt else Some(now))
  }

  /** One turn of the apply loop: the tenant is left alone when it is gone or has an expiry by now. */
  function AppliedRow(tenants: Tenants, p: Planned, now: int): Tenants {
    if p.tenant !in tenants || tenants[p.tenant].expiresAt.Some? then tenants
    else tenants[p.tenant := Written(tenants[p.tenant], p.expiresAt, now)]
  }

  function Applied(tenants: Tenants, rows: seq<Planned>, now: int): Tenants {
    if rows == [] then tenants else AppliedRow(Applied(tenants, rows[..|rows| - 1], now), rows[|rows| - 1], now)
  }

  /** The tenants that differ. */
  function Changed(before: Tenants, after: Tenants): set<nat> {
    set t | t in after && t in before && after[t] != before[t]
  }

  /** The same tenants, and each one that differs has an expiry now. */
  ghost predicate OnlyDated(before: Tenants, after: Tenants) {
    before.Keys == after.Keys && forall t :: t in Changed(before, after) ==> after[t].expiresAt.Some?
  }

  lemma SameChangesNothing(tenants: Tenants)
    ensures Changed(tenants, tenants) == {} && OnlyDated(tenants, tenants)
  {
  }

  /** Writing a tenant that has no expiry changes one tenant more. */
  lemma WritingChangesOne(before: Tenants, now: Tenants, p: Planned, time: int)
    requires OnlyDated(before, now) && p.tenant in now && now[p.tenant].expiresAt.None?
    ensures var after := now[p.tenant := Written(now[p.tenant], p.expiresAt, time)];
            OnlyDated(before, after) && |Changed(before, after)| == |Changed(before, now)| + 1
  {
    var after := now[p.tenant := Written(now[p.tenant], p.expiresAt, time)];
    assert p.tenant !in Changed(before, now);
    assert Changed(before, after) == Changed(before, now) + {p.tenant};
  }

  class Backfill {
    const users: Users
    var tenants: Tenants

    constructor (tenants: Tenants, users: Users)
      ensures this.tenants == tenants && this.users == users
    {
      this.tenants, this.users := tenants, users;
    }

    /** `_plan` */
    method Plan(now: int, graceDays: int) returns (rows: seq<Planned>)
      ensures IsPlan(rows, tenants, users, now, graceDays)
    {
      rows := [];
      var todo := set t | t in tenants && tenants[t].expiresAt.None? && tenants[t].lifecycle == Active;
      ghost var all := todo;
      while todo != {}
        invariant todo <= all
        invariant forall p :: p in rows <==>
                    && p.tenant in all && p.tenant !in todo && TrialEnd(tenants[p.tenant], users).Some?
                    && p.expiresAt == PlannedExpiry(TrialEnd(tenants[p.tenant], users).value, now, graceDays)
        invariant forall i, j :: 0 <= i < j < |rows| ==> rows[i].tenant != rows[j].tenant
        decreases todo
      {
        var t :| t in todo;
        todo := todo - {t};
        assert forall p :: p in rows ==> p.tenant != t;
        if Converted(tenants[t]) {
          continue;
        }
        if tenants[t].owner.None? || tenants[t].owner.value !in users || users[tenants[t].owner.value].None? {
          continue;
        }
        var ends := users[tenants[t].owner.value].value;
        if ends > now {
          rows := rows + [Planned(t, ends)];
        } else if graceDays > 0 {
          rows := rows + [Planned(t, now + graceDays * DAY)];
        } else {
          rows := rows + [Planned(t, ends)];
        }
      }
    }

    /** `_apply` */
    method Apply(rows: seq<Planned>, now: int) returns (written: nat)
      modifies this`tenants
      ensures tenants == Applied(old(tenants), rows, now)
      ensures written == |Changed(old(tenants), tenants)|
    {
      written := 0;
      ghost var start := tenants;
      SameChangesNothing(start);
      for i := 0 to |rows|
        invariant tenants == Applied(start, rows[..i], now) && OnlyDated(start, tenants)
        invariant written == |Changed(start, tenants)|
      {
        assert rows[..i + 1][..i] == rows[..i];
        var p := rows[i];
        if p.tenant in tenants && tenants[p.tenant].expiresAt.None? {
          WritingChangesOne(start, tenants, p, now);
          tenants := tenants[p.tenant := Written(tenants[p.tenant], p.expiresAt, now)];
          written := written + 1;
        }
      }
      assert rows[..|rows|] == rows;
    }

    /** `_run`; `others` is what other writers do to the tenants between the plan and its application. */
    method Run(apply: bool, graceDays: int, planTime: int, applyTime: int, others: Tenants -> Tenants)
      returns (rows: seq<Planned>, written: nat)
      modifies this`tenants
      ensures IsPlan(rows, old(tenants), users, planTime, graceDays)
      ensures !apply ==> tenants == others(old(tenants)) && written == 0
      ensures apply ==> tenants == Applied(others(old(tenants)), rows, applyTime)
      ensures apply && (forall p :: p in rows ==> || p.tenant !in others(old(tenants))
                                                  || others(old(tenants))[p.tenant].expiresAt.Some?)
              ==> written == 0
    {
      rows := Plan(planTime, graceDays);
      written := 0;
      tenants := others(tenants);
      if rows != [] && apply {
        ghost var now := tenants;
        written := Apply(rows, applyTime);
        if forall p :: p in rows ==> p.tenant !in now || now[p.tenant].expiresAt.Some? {
          NothingToApply(now, rows, applyTime);
        }
      }
    }
  }

  /** Applying adds and removes no tenant, and never clears an expiry. */
  lemma {:induction false} AppliedKeeps(tenants: Tenants, rows: seq<Planned>, now: int, t: nat)
    ensures var after := Applied(tenants, rows, now);
            && (t in after <==> t in tenants)
            && (t in tenants && tenants[t].expiresAt.Some? ==> after[t] == tenants[t])
            && (t in tenants && (forall p :: p in rows ==> p.tenant != t) ==> after[t] == tenants[t])
  {
    if rows != [] {
      assert rows[|rows| - 1] in rows;
      AppliedKeeps(tenants, rows[..|rows| - 1], now, t);
    }
  }

  lemma {:induction false} NothingToApply(tenants: Tenants, rows: seq<Planned>, now: int)
    requires forall p :: p in rows ==> p.tenant !in tenants || tenants[p.tenant].expiresAt.Some?
    ensures Applied(tenants, rows, now) == tenants
  {
    if rows != [] {
      assert rows[|rows| - 1] in rows;
      NothingToApply(tenants, rows[..|rows| - 1], now);
    }
  }

  /** What a tenant becomes: its planned row is written exactly when it still has no expiry; nothing else
      about it is looked at again. */
  lemma {:induction false} AppliedMeans(tenants: Tenants, rows: seq<Planned>, now: int, p: Planned)
    requires p in rows && p.tenant in tenants
    requires forall i, j :: 0 <= i < j < |rows| ==> rows[i].tenant != rows[j].tenant
    ensures p.tenant in Applied(tenants, rows, now)
    ensures Applied(tenants, rows, now)[p.tenant]
         == if tenants[p.tenant].expiresAt.Some? then tenants[p.tenant]
            else Written(tenants[p.tenant], p.expiresAt, now)
  {
    var init, last := rows[..|rows| - 1], rows[|rows| - 1];
    AppliedKeeps(tenants, init, now, p.tenant);
    if p == last {
      forall q | q in init ensures q.tenant != p.tenant {
        var i :| 0 <= i < |init| && init[i] == q;
        assert rows[i] == q;
      }
    } else {
      assert p in init;
      var i :| 0 <= i < |rows| && rows[i] == p;
      assert last.tenant != p.tenant;
      AppliedMeans(tenants, init, now, p);
    }
  }

  /** What a planned tenant is given, told from the trial end that was read: a trial still running ends when
      it was to end; a lapsed one ends the grace period after planning, or when it ended if there is none. */
  predicate ExpiryFits(ends: int, planTime: int, graceDays: int, expiresAt: int) {
    && (ends > planTime ==> expiresAt == ends)
    && (ends <= planTime && graceDays > 0 ==> expiresAt == planTime + 86400 * graceDays)
    && (ends <= planTime && graceDays <= 0 ==> expiresAt == ends)
  }

  /** A tenant put on trial: everything else about it stays, and the start of its trial is what it was, or
      else its creation, or else the time of writing. */
  predicate PutOnTrial(before: Tenant, after: Tenant, applyTime: int) {
    && after.plan == "trial" && after.lifecycle == Trial
    && after.owner == before.owner && after.createdAt == before.createdAt
    && (before.trialStartedAt.Some? ==> after.trialStartedAt == before.trialStartedAt)
    && (before.trialStartedAt.None? && before.createdAt.Some? ==> after.trialStartedAt == before.createdAt)
    && (before.trialStartedAt.None? && before.createdAt.None? ==> after.trialStartedAt == Some(applyTime))
  }

  /** Over every run, whatever other writers do in between: an expiry that is there when the plan is applied
      stays as it is; one that is written fits the trial end the plan read and is not before it; with a
      positive grace none is at or before the time of planning; and the tenant is put on trial. */
  lemma RunIsSafe(read: Tenants, users: Users, rows: seq<Planned>, planTime: int, graceDays: int,
                  found: Tenants, applyTime: int, t: nat)
    requires IsPlan(rows, read, users, planTime, graceDays) && t in found
    ensures t in Applied(found, rows, applyTime)
    ensures var before, after := found[t], Applied(found, rows, applyTime)[t];
            && (before.expiresAt.Some? ==> after == before)
            && (after != before ==>
                  && t in read && TrialEnd(read[t], users).Some? && after.expiresAt.Some?
                  && ExpiryFits(TrialEnd(read[t], users).value, planTime, graceDays, after.expiresAt.value)
                  && after.expiresAt.value >= TrialEnd(read[t], users).value
                  && (graceDays > 0 ==> after.expiresAt.value > planTime)
                  && PutOnTrial(before, after, applyTime))
  {
    AppliedKeeps(found, rows, applyTime, t);
    if p :| p in rows && p.tenant == t {
      AppliedMeans(found, rows, applyTime, p);
    }
  }

  /** Who is put on trial by an undisturbed run: exactly the active tenants without an expiry, not on one of
      the five plans in any spelling, whose owner is known and was given a trial. */
  lemma RunReachesExactly(read: Tenants, users: Users, rows: seq<Planned>, planTime: int, graceDays: int,
                          applyTime: int, t: nat)
    requires IsPlan(rows, read, users, planTime, graceDays) && t in read
    ensures t in Applied(read, rows, applyTime)
    ensures Applied(read, rows, applyTime)[t] != read[t] <==>
            && read[t].lifecycle == Active && read[t].expiresAt.None?
            && Lower(read[t].plan) !in {"starter", "pro", "enterprise", "payg", "beta"}
            && read[t].owner.Some? && read[t].owner.value in users && users[read[t].owner.value].Some?
  {
    AppliedKeeps(read, rows, applyTime, t);
    if TrialEnd(read[t], users).Some? {
      var p := Planned(t, PlannedExpiry(TrialEnd(read[t], users).value, planTime, graceDays));
      assert p in rows;
      AppliedMeans(read, rows, applyTime, p);
    }
  }

  /** An undisturbed second run, at any later time and with any grace, plans nothing and so writes nothing. */
  lemma SecondRunPlansNothing(read: Tenants, users: Users, rows: seq<Planned>, planTime: int, graceDays: int,
                              applyTime: int, again: seq<Planned>, planTime': int, graceDays': int)
    requires IsPlan(rows, read, users, planTime, graceDays)
    requires IsPlan(again, Applied(read, rows, applyTime), users, planTime', graceDays')
    ensures again == []
  {
    if again != [] {
      var t := again[0].tenant;
      assert again[0] in again;
      var after := Applied(read, rows, applyTime);
      AppliedKeeps(read, rows, applyTime, t);
      AfterRunNoTrialEnd(read, users, rows, planTime, graceDays, applyTime, t);
    }
  }

  lemma AfterRunNoTrialEnd(read: Tenants, users: Users, rows: seq<Planned>, planTime: int, graceDays: int,
                           applyTime: int, t: nat)
    requires IsPlan(rows, read, users, planTime, graceDays) && t in read
    ensures t in Applied(read, rows, applyTime) && TrialEnd(Applied(read, rows, applyTime)[t], users).None?
  {
    AppliedKeeps(read, rows, applyTime, t);
    if TrialEnd(read[t], users).Some? {
      var p := Planned(t, PlannedExpiry(TrialEnd(read[t], users).value, planTime, graceDays));
      assert p in rows;
      AppliedMeans(read, rows, applyTime, p);
    } else if p :| p in rows && p.tenant == t {
      assert false;
    }
  }

  /** Tenants that the documentation says are never touched. */
  predicate OffLimits(t: Tenant) {
    Converted(t) || t.lifecycle in {Demo, ReadOnly} || t.expiresAt.Some?
  }

  /** The plan keeps that promise. */
  lemma PlanAvoidsOffLimits(read: Tenants, users: Users, rows: seq<Planned>, planTime: int, graceDays: int, p: Planned)
    requires IsPlan(rows, read, users, planTime, graceDays) && p in rows
    ensures p.tenant in read && !OffLimits(read[p.tenant])
  {
  }

  /** The application looks at neither plan nor lifecycle again: a tenant, off limits by then or not, is
      left as it is if and only if it was not planned or has an expiry. */
  lemma UntouchedExactly(found: Tenants, rows: seq<Planned>, applyTime: int, t: nat)
    requires t in found
    requires forall i, j :: 0 <= i < j < |rows| ==> rows[i].tenant != rows[j].tenant
    ensures t in Applied(found, rows, applyTime)
    ensures Applied(found, rows, applyTime)[t] == found[t]
            <==> found[t].expiresAt.Some? || forall p :: p in rows ==> p.tenant != t
  {
    AppliedKeeps(found, rows, applyTime, t);
    if p :| p in rows && p.tenant == t {
      AppliedMeans(found, rows, applyTime, p);
    }
  }

  /** A merchant whose trial has lapsed, and the plan made for it. */
  const LAPSED := Tenant("active", Active, None, Some(1), None, Some(0))

  lemma LapsedIsPlanned(now: int)
    ensures IsPlan([Planned(7, now + 7 * DAY)], map[7 := LAPSED], map[1 := Some(now - 1)], now, 7)
  {
    var l := Lower("active");
    assert |l| == 6 && l[0] == 'a';
    assert "starter"[0] == 's' && "pro"[0] == 'p' && "enterprise"[0] == 'e' && "payg"[0] == 'p' && "beta"[0] == 'b';
    assert !Converted(LAPSED);
  }

  /** That merchant buys the `pro` plan before the plan is applied, and is put back on trial. */
  lemma LateConversionIsOverwritten(now: int)
    ensures var rows, paid := [Planned(7, now + 7 * DAY)], map[7 := LAPSED.(plan := "pro")];
            && IsPlan(rows, map[7 := LAPSED], map[1 := Some(now - 1)], now, 7)
            && OffLimits(paid[7])
            && Applied(paid, rows, now + 1)
               == map[7 := Tenant("trial", Trial, Some(now + 7 * DAY), Some(1), Some(0), Some(0))]
  {
    LapsedIsPlanned(now);
    assert Lower("pro") == "pro";
    assert [Planned(7, now + 7 * DAY)][..0] == [];
  }

  /** Or it is made read-only in the meantime, and is put back on trial all the same. */
  lemma LateReadOnlyIsOverwritten(now: int)
    ensures var rows, locked := [Planned(7, now + 7 * DAY)], map[7 := LAPSED.(lifecycle := ReadOnly)];
            && IsPlan(rows, map[7 := LAPSED], map[1 := Some(now - 1)], now, 7)
            && OffLimits(locked[7])
            && Applied(locked, rows, now + 1)
               == map[7 := Tenant("trial", Trial, Some(now + 7 * DAY), Some(1), Some(0), Some(0))]
  {
    LapsedIsPlanned(now);
    assert [Planned(7, now + 7 * DAY)][..0] == [];
  }
}
