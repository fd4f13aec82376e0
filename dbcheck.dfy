/**
 * `DatabaseCheckMiddleware`: probes the database on the first request only,
 * runs migrations when the migrations table is absent, and from then on
 * either forwards every request or answers every request with a 500.
 * The database is not modelled: a `Probe` says how each step of the check
 * would end if it ran.
 */
module DatabaseCheck {
  import opened Wrappers
  import opened Http

  const UnavailableBody: string := "Database is not available. Please check your database connection."
  const DatabaseErrorBody: string := "Database error occurred. Please try again later."

  /** What a database step may raise: the two database errors or anything else. */
  datatype ErrorKind = OperationalError | DatabaseError | OtherError

  datatype Outcome = Completes | Raises(kind: ErrorKind)

  /**
   * How the three steps of the check end: "SELECT 1", the count of tables
   * named django_migrations, and `migrate`, with the count when it returns.
   */
  datatype Probe = Probe(select: Outcome, countQuery: Outcome, migrationsTableCount: nat, migrate: Outcome)

  /** The steps that actually run, in order: each runs only if the previous ones completed. */
  function StepsRun(p: Probe): (steps: seq<Outcome>)
    ensures 1 <= |steps| <= 3 && steps[0] == p.select
    ensures |steps| >= 2 ==> steps[1] == p.countQuery
    ensures |steps| == 3 ==> steps[2] == p.migrate
    ensures forall k :: 0 <= k < |steps| - 1 ==> steps[k].Completes?
    ensures |steps| < 3 ==> steps[|steps| - 1].Raises? || p.migrationsTableCount > 0
  {
    if p.select.Raises? then [p.select]
    else if p.countQuery.Raises? || p.migrationsTableCount > 0 then [p.select, p.countQuery]
    else [p.select, p.countQuery, p.migrate]
  }

  /** The check passes when the connection works, the table query answers, and the table exists or `migrate` completes. */
  predicate ProbeHealthy(p: Probe)
    ensures ProbeHealthy(p) <==> StepsRun(p)[|StepsRun(p)| - 1].Completes?
  {
    p.select.Completes? && p.countQuery.Completes? &&
    (p.migrationsTableCount > 0 || p.migrate.Completes?)
  }

  /** `migrate` is invoked exactly when both queries succeed and report no table. */
  predicate MigrateRuns(p: Probe) {
    p.select.Completes? && p.countQuery.Completes? && p.migrationsTableCount == 0
  }

  /** Healthy means no step that ran raised; migration is the third step. */
  lemma HealthyIffNoStepRaised(p: Probe)
    ensures ProbeHealthy(p) <==> forall k :: 0 <= k < |StepsRun(p)| ==> StepsRun(p)[k].Completes?
    ensures MigrateRuns(p) <==> |StepsRun(p)| == 3
    ensures MigrateRuns(p) ==> (ProbeHealthy(p) <==> p.migrate.Completes?)
  {
  }

  /** Whether the middleware forwarded the request or refused it itself. */
  datatype Answer = Forwarded | Refused(response: Response)

  /** The two flags of the middleware, as a value. */
  datatype Flags = Flags(checked: bool, healthy: bool)

  const Initial: Flags := Flags(false, false)

  /** One request: the new flags, the answer, and whether the database was probed. */
  function Step(f: Flags, p: Probe): (r: (Flags, Answer, bool))
    ensures r.0.checked
    ensures r.2 <==> !f.checked
    ensures r.1 == Forwarded <==> r.0.healthy
  {
    var healthy := if f.checked then f.healthy else ProbeHealthy(p);
    (Flags(true, healthy),
     if healthy then Forwarded else Refused(ServerError(UnavailableBody)),
     !f.checked)
  }

  /** A run of requests, each offering the probe the database would answer with: final flags, answers, probes made. */
  function Serve(f: Flags, probes: seq<Probe>): (r: (Flags, seq<Answer>, nat))
    ensures |r.1| == |probes|
    ensures probes == [] ==> r == (f, [], 0)
    ensures probes != [] ==> r.0.checked
    ensures r.2 <= 1 && (r.2 == 1 <==> !f.checked && probes != [])
    decreases |probes|
  {
    if probes == [] then (f, [], 0)
    else
      var first := Step(f, probes[0]);
      var rest := Serve(first.0, probes[1..]);
      (rest.0, [first.1] + rest.1, rest.2 + (if first.2 then 1 else 0))
  }

  /** After the check, the flags never change, nothing is probed, and every answer is the same. */
  lemma {:induction false} ServeChecked(healthy: bool, probes: seq<Probe>)
    ensures Serve(Flags(true, healthy), probes).0 == Flags(true, healthy)
    ensures Serve(Flags(true, healthy), probes).2 == 0
    ensures forall k :: 0 <= k < |probes| ==>
      Serve(Flags(true, healthy), probes).1[k] ==
        (if healthy then Forwarded else Refused(ServerError(UnavailableBody)))
    decreases |probes|
  {
    if probes != [] {
      ServeChecked(healthy, probes[1..]);
    }
  }

  /**
   * From server start, the database is probed exactly once, on the first
   * request, and that first result decides every request's answer.
   */
  lemma ServeFromStart(probes: seq<Probe>)
    requires |probes| > 0
    ensures Serve(Initial, probes).0 == Flags(true, ProbeHealthy(probes[0]))
    ensures Serve(Initial, probes).2 == 1
    ensures forall k :: 0 <= k < |probes| ==>
      (Serve(Initial, probes).1[k] == Forwarded <==> ProbeHealthy(probes[0]))
  {
    var h := ProbeHealthy(probes[0]);
    ServeChecked(h, probes[1..]);
    var r := Serve(Initial, probes);
    var rest := Serve(Flags(true, h), probes[1..]);
    assert r.1 == [if h then Forwarded else Refused(ServerError(UnavailableBody))] + rest.1;
    forall k | 0 <= k < |probes|
      ensures r.1[k] == Forwarded <==> h
    {
      if k > 0 {
        assert r.1[k] == rest.1[k - 1];
      }
    }
  }

  /** `process_exception`: database errors become a 500, anything else is left to Django. */
  function ProcessException(e: ErrorKind): (r: Option<Response>)
    ensures r.Some? <==> e != OtherError
    ensures r.Some? ==> r.value.ServerError? && r.value.body == DatabaseErrorBody
  {
    match e
    case OperationalError => Some(ServerError(DatabaseErrorBody))
    case DatabaseError => Some(ServerError(DatabaseErrorBody))
    case OtherError => None
  }

  class DatabaseCheckMiddleware {
    var dbChecked: bool
    var dbHealthy: bool

    function State(): Flags
      reads this
    {
      Flags(dbChecked, dbHealthy)
    }

    constructor()
      ensures State() == Initial
    {
      dbChecked := false;
      dbHealthy := false;
    }

    /** `_check_database`: every exception is caught and marks the database unhealthy. */
    method CheckDatabase(p: Probe) returns (migrated: bool)
      modifies this
      ensures dbHealthy == ProbeHealthy(p)
      ensures migrated == MigrateRuns(p)
      ensures dbChecked == old(dbChecked)
    {
      var failed := false;
      migrated := false;
      if p.select.Raises? {
        failed := true;
      } else if p.countQuery.Raises? {
        failed := true;
      } else {
        var hasMigrationsTable := p.migrationsTableCount > 0;
        if !hasMigrationsTable {
          migrated := true;
          if p.migrate.Raises? {
            failed := true;
          }
        }
      }
      dbHealthy := !failed;
    }

    /** `__call__`: probe once, then forward or refuse according to the stored result. */
    method Call(p: Probe) returns (answer: Answer, probed: bool)
      modifies this
      ensures (State(), answer, probed) == Step(old(State()), p)
    {
      probed := false;
      if !dbChecked {
        var _ := CheckDatabase(p);
        dbChecked := true;
        probed := true;
      }
      if !dbHealthy {
        return Refused(ServerError(UnavailableBody)), probed;
      }
      answer := Forwarded;
    }
  }
}
