/** No signature exceeds what was attested: on all interleavings of the issuer's handlers, every account's
    scope goes back to an attestation of its own device, and so does the scope of every grant. */
module IssuerScopes {
  import opened Bytes
  import opened IssuerTables
  import opened RateLimit
  import opened Issuer
  import opened IssuerRuns

  /** Step `k` writes what the attester answered, this scope, for a handler that enrols this device key. */
  ghost predicate AttestedAt(env: Env, l: Limits, steps: seq<Step>, k: nat, devicePub: Bytes, maxScope: int)
    requires l.Valid()
  {
    && k < |steps| && steps[k].EnrollWrite? && steps[k].maxScope == maxScope
    && var s := Run(env, l, steps[..k]);
       && steps[k].handler in s.handlers && s.handlers[steps[k].handler].Attesting?
       && s.handlers[steps[k].handler].devicePub == devicePub
  }

  ghost predicate Attested(env: Env, l: Limits, steps: seq<Step>, a: Account)
    requires l.Valid()
  {
    exists k: nat :: AttestedAt(env, l, steps, k, a.devicePub, a.maxScope)
  }

  ghost predicate AllAttested(env: Env, l: Limits, steps: seq<Step>, rows: Rows)
    requires l.Valid()
  {
    forall a :: a in rows ==> Attested(env, l, steps, a)
  }

  lemma StaysAttested(env: Env, l: Limits, steps: seq<Step>, n: nat, a: Account)
    requires l.Valid() && n <= |steps| && Attested(env, l, steps[..n], a)
    ensures Attested(env, l, steps, a)
  {
    var k: nat :| AttestedAt(env, l, steps[..n], k, a.devicePub, a.maxScope);
    assert steps[..n][..k] == steps[..k];
    assert AttestedAt(env, l, steps, k, a.devicePub, a.maxScope);
  }

  /** A step changes rows only by writing an attested scope, over the row of the handler's device or as a new
      row for it. */
  lemma StepWrites(env: Env, l: Limits, s: State, step: Step, a: Account)
    requires l.Valid() && Binding(s) && a in Next(env, l, s, step).rows
    ensures || a in s.rows
            || (step.EnrollWrite? && step.handler in s.handlers && s.handlers[step.handler].Attesting?
                && a.maxScope == step.maxScope && a.devicePub == s.handlers[step.handler].devicePub)
  {
    var writes := step.EnrollWrite? && step.handler in s.handlers && s.handlers[step.handler].Attesting?;
    assert !writes ==> Next(env, l, s, step).rows == s.rows;
    if writes && s.handlers[step.handler].existing.Some? {
      var at := s.handlers[step.handler];
      var j :| 0 <= j < |s.rows| && s.rows[j].devicePub == at.devicePub
               && s.rows[j].accountId == at.existing.value.accountId;
      var i :| 0 <= i < |Next(env, l, s, step).rows| && Next(env, l, s, step).rows[i] == a;
      assert a == s.rows[i] || i == j;
    }
  }

  /** On every interleaving, the scope in every row of the table is one that the attester answered for the
      device of that row. */
  lemma {:induction false} RowsAttested(env: Env, l: Limits, steps: seq<Step>)
    requires l.Valid()
    ensures AllAttested(env, l, steps, Run(env, l, steps).rows)
  {
    if steps != [] {
      var n := |steps| - 1;
      var before := Run(env, l, steps[..n]);
      RowsAttested(env, l, steps[..n]);
      RunBinding(env, l, steps[..n]);
      forall a | a in Run(env, l, steps).rows
        ensures Attested(env, l, steps, a)
      {
        StepWrites(env, l, before, steps[n], a);
        if a in before.rows {
          StaysAttested(env, l, steps, n, a);
        } else {
          assert AttestedAt(env, l, steps, n, a.devicePub, a.maxScope);
        }
      }
    }
  }

  /** On every interleaving, every grant has behind it an earlier attestation of the very device that signed the
      request, for a scope that covers the one requested: written at step `k`, read at `n`, admitted at `m`. */
  lemma GrantsAttested(env: Env, l: Limits, steps: seq<Step>, i: nat) returns (k: nat, n: nat, m: nat)
    requires l.Valid() && i < |Run(env, l, steps).grants|
    ensures GrantedAt(env, l, steps, i, n, m) && k < n
    ensures var g := Run(env, l, steps).grants[i];
      && AttestedAt(env, l, steps, k, g.account.devicePub, g.account.maxScope)
      && g.req.fields.scope <= steps[k].maxScope
  {
    n, m := GrantsAuthorised(env, l, steps, i);
    var g := Run(env, l, steps).grants[i];
    RowsAttested(env, l, steps[..n]);
    var j: nat :| AttestedAt(env, l, steps[..n], j, g.account.devicePub, g.account.maxScope);
    assert steps[..n][..j] == steps[..j];
    k := j;
  }
}
