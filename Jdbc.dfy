/**
 * The database behind `JdbcTemplate.execute`, reduced to what the service
 * can observe: every statement it submits is recorded, and a fixed verdict
 * says which statements the database rejects and with what message.
 */
module Jdbc {
  import opened Results

  class Database {
    /** `Some(message)` for a statement `execute` throws on; `None` for one it runs. */
    const verdict: string -> Option<string>
    /** Every statement submitted so far, oldest first. */
    var log: seq<string>

    constructor (verdict: string -> Option<string>)
      ensures this.verdict == verdict && log == []
    {
      this.verdict := verdict;
      log := [];
    }

    /** `jdbcTemplate.execute(sql)`: the statement is submitted, and the verdict says whether it throws. */
    method Execute(sql: string) returns (failure: Option<string>)
      modifies this
      ensures log == old(log) + [sql]
      ensures failure == verdict(sql)
    {
      log := log + [sql];
      failure := verdict(sql);
    }
  }

  /** What running a list of statements, stopping at the first exception, submits and how it ends. */
  datatype Run = Run(executed: seq<string>, failure: Option<string>)

  function RunAll(stmts: seq<string>, verdict: string -> Option<string>): Run
    decreases |stmts|
  {
    if stmts == [] then Run([], None)
    else match verdict(stmts[0])
      case Some(m) => Run([stmts[0]], Some(m))
      case None =>
        var r := RunAll(stmts[1..], verdict);
        Run([stmts[0]] + r.executed, r.failure)
  }

  predicate AllAccepted(stmts: seq<string>, verdict: string -> Option<string>)
  {
    forall k :: 0 <= k < |stmts| ==> verdict(stmts[k]).None?
  }

  /**
   * A run submits a prefix of the statements: all of them when every one is
   * accepted, and otherwise exactly up to and including the first rejected
   * one, whose message it reports.
   */
  lemma {:induction false} RunAllSpec(stmts: seq<string>, verdict: string -> Option<string>)
    ensures var r := RunAll(stmts, verdict);
      (r.failure.None? <==> AllAccepted(stmts, verdict)) &&
      (r.failure.None? ==> r.executed == stmts) &&
      (r.failure.Some? ==>
        exists n :: 0 <= n < |stmts| && r.executed == stmts[..n + 1] &&
          AllAccepted(stmts[..n], verdict) && verdict(stmts[n]) == r.failure)
    decreases |stmts|
  {
    if stmts != [] {
      var r := RunAll(stmts, verdict);
      if verdict(stmts[0]).Some? {
        assert r.executed == stmts[..1];
        assert AllAccepted(stmts[..0], verdict);
      } else {
        var rest := stmts[1..];
        RunAllSpec(rest, verdict);
        var q := RunAll(rest, verdict);
        if q.failure.None? {
          assert AllAccepted(stmts, verdict) by {
            forall k | 0 <= k < |stmts| ensures verdict(stmts[k]).None? {
              if k > 0 { assert stmts[k] == rest[k - 1]; }
            }
          }
          assert [stmts[0]] + rest == stmts;
        } else {
          var n :| 0 <= n < |rest| && q.executed == rest[..n + 1] && AllAccepted(rest[..n], verdict)
            && verdict(rest[n]) == q.failure;
          assert r.executed == stmts[..n + 2];
          var front := stmts[..n + 1];
          assert AllAccepted(front, verdict) by {
            forall k | 0 <= k < n + 1 ensures verdict(front[k]).None? {
              if k > 0 { assert front[k] == rest[..n][k - 1]; }
            }
          }
          assert !AllAccepted(stmts, verdict) by {
            assert stmts[n + 1] == rest[n];
          }
        }
      }
    }
  }

  /** Running a concatenation runs the first part, and the second only if the first went through. */
  lemma {:induction false} RunAllAppend(a: seq<string>, b: seq<string>, verdict: string -> Option<string>)
    ensures RunAll(a + b, verdict) ==
      var ra := RunAll(a, verdict);
      if ra.failure.Some? then ra
      else var rb := RunAll(b, verdict); Run(a + rb.executed, rb.failure)
    decreases |a|
  {
    if a == [] {
      assert a + b == b;
      assert RunAll(a, verdict) == Run([], None);
    } else {
      assert (a + b)[0] == a[0];
      assert (a + b)[1..] == a[1..] + b;
      RunAllAppend(a[1..], b, verdict);
      if verdict(a[0]).None? && RunAll(a[1..], verdict).failure.None? {
        RunAllSpec(a[1..], verdict);
        var rb := RunAll(b, verdict);
        assert [a[0]] + (a[1..] + rb.executed) == a + rb.executed;
      }
    }
  }

  /** A run submits the statements from the first one on, and no others. */
  lemma RunAllPrefix(stmts: seq<string>, verdict: string -> Option<string>)
    ensures var e := RunAll(stmts, verdict).executed; |e| <= |stmts| && e == stmts[..|e|]
  {
    RunAllSpec(stmts, verdict);
  }

  /** A run of accepted statements submits all of them and ends normally. */
  lemma RunAllAccepted(done: seq<string>, verdict: string -> Option<string>)
    requires AllAccepted(done, verdict)
    ensures RunAll(done, verdict) == Run(done, None)
  {
    RunAllSpec(done, verdict);
  }

  /** A statement accepted after an accepted prefix extends it. */
  lemma AcceptedPrefix(stmts: seq<string>, n: int, verdict: string -> Option<string>)
    requires 0 <= n < |stmts|
    requires AllAccepted(stmts[..n], verdict) && verdict(stmts[n]).None?
    ensures AllAccepted(stmts[..n + 1], verdict)
  {
    assert forall k :: 0 <= k < n ==> stmts[..n + 1][k] == stmts[..n][k];
  }

  /** A rejected statement after accepted ones ends the run, whatever follows. */
  lemma RunAllReject(done: seq<string>, s: string, rest: seq<string>, verdict: string -> Option<string>)
    requires AllAccepted(done, verdict)
    requires verdict(s).Some?
    ensures RunAll(done + [s] + rest, verdict) == Run(done + [s], verdict(s))
  {
    RunAllAccepted(done, verdict);
    assert done + [s] + rest == done + ([s] + rest);
    RunAllAppend(done, [s] + rest, verdict);
    assert ([s] + rest)[0] == s;
  }
}
