/** At most one issuance per authenticated request, on every interleaving of the handlers. */
module IssuerReplay {
  import opened DeviceKey
  import opened IssuerTables
  import opened RateLimit
  import opened Issuer
  import opened IssuerRuns

  /** How far clock values may be out of order at the request id table: the retention less twice the
      timestamp window, 480 seconds. */
  const TOLERATED_SKEW: nat := DEFAULT_WINDOW - 2 * ISSUANCE_TS_WINDOW

  /** Mark number `mark` recorded this request, and found its id new. */
  ghost predicate MarkOf(marks: seq<Mark>, mark: nat, req: IssueRequest, now: int) {
    && mark < |marks|
    && AcceptedMark(marks, DEFAULT_WINDOW, mark)
    && marks[mark] == Mark(req.fields.requestId, req.fields.ts, now)
  }

  /** The table is explained by its history, and timestamps were checked against the clock. */
  ghost predicate TableExplained(s: State) {
    && s.seen == SeenAfter(s.marks, DEFAULT_WINDOW)
    && Timely(s.marks, ISSUANCE_TS_WINDOW)
    && forall h :: h in s.handlers && s.handlers[h].Authentic? ==>
         -ISSUANCE_TS_WINDOW <= s.handlers[h].req.fields.ts - s.handlers[h].now <= ISSUANCE_TS_WINDOW
  }

  ghost predicate Numbered(s: State) {
    && (forall h :: h in s.handlers && s.handlers[h].Recorded? ==>
          MarkOf(s.marks, s.handlers[h].mark, s.handlers[h].req, s.handlers[h].now))
    && (forall i :: 0 <= i < |s.grants| ==> MarkOf(s.marks, s.grants[i].mark, s.grants[i].req, s.grants[i].now))
  }

  /** No mark lets two handlers, a handler and a grant, or two grants through. */
  ghost predicate OneUse(s: State) {
    && (forall h, k :: h in s.handlers && k in s.handlers && h != k
                       && s.handlers[h].Recorded? && s.handlers[k].Recorded? ==>
          s.handlers[h].mark != s.handlers[k].mark)
    && (forall h, i :: h in s.handlers && s.handlers[h].Recorded? && 0 <= i < |s.grants| ==>
          s.handlers[h].mark != s.grants[i].mark)
    && (forall i, j :: 0 <= i < j < |s.grants| ==> s.grants[i].mark != s.grants[j].mark)
  }

  lemma MarkOfKept(marks: seq<Mark>, more: Mark, mark: nat, req: IssueRequest, now: int)
    requires MarkOf(marks, mark, req, now)
    ensures MarkOf(marks + [more], mark, req, now)
  {
    assert (marks + [more])[..mark] == marks[..mark];
  }

  lemma NewMarkOf(marks: seq<Mark>, req: IssueRequest, now: int)
    requires IsNew(SeenAfter(marks, DEFAULT_WINDOW), req.fields.requestId, now, DEFAULT_WINDOW)
    ensures MarkOf(marks + [Mark(req.fields.requestId, req.fields.ts, now)], |marks|, req, now)
  {
    var longer := marks + [Mark(req.fields.requestId, req.fields.ts, now)];
    assert longer[..|marks|] == marks;
  }

  lemma ReadExplained(env: Env, s: State, h: nat, req: IssueRequest, now: int)
    requires TableExplained(s)
    ensures TableExplained(AfterIssueRead(env, s, h, req, now))
  {
    ReadChecks(env, s.rows, req, now);
  }

  lemma MarkExplained(s: State, h: nat)
    requires TableExplained(s)
    ensures TableExplained(AfterIssueMark(s, h))
  {
    if h in s.handlers && s.handlers[h].Authentic? {
      var next := AfterIssueMark(s, h);
      assert next.marks[..|s.marks|] == s.marks;
    }
  }

  lemma MarkNumbered(s: State, h: nat)
    requires TableExplained(s) && Numbered(s)
    ensures Numbered(AfterIssueMark(s, h))
  {
    if h in s.handlers && s.handlers[h].Authentic? {
      var next, at := AfterIssueMark(s, h), s.handlers[h];
      var more := Mark(at.req.fields.requestId, at.req.fields.ts, at.now);
      forall k | k in next.handlers && next.handlers[k].Recorded?
        ensures MarkOf(next.marks, next.handlers[k].mark, next.handlers[k].req, next.handlers[k].now)
      {
        if k == h { NewMarkOf(s.marks, at.req, at.now); }
        else { MarkOfKept(s.marks, more, s.handlers[k].mark, s.handlers[k].req, s.handlers[k].now); }
      }
      forall i | 0 <= i < |s.grants|
        ensures MarkOf(next.marks, s.grants[i].mark, s.grants[i].req, s.grants[i].now)
      {
        MarkOfKept(s.marks, more, s.grants[i].mark, s.grants[i].req, s.grants[i].now);
      }
    }
  }

  lemma MarkOneUse(s: State, h: nat)
    requires Numbered(s) && OneUse(s)
    ensures OneUse(AfterIssueMark(s, h))
  {
  }

  /** An admission either drops its handler, or turns it into one more grant with the same mark. */
  lemma AdmitMoves(l: Limits, s: State, h: nat, signable: bool)
    requires l.Valid() && h in s.handlers && s.handlers[h].Recorded?
    ensures var at, next := s.handlers[h], AfterIssueAdmit(l, s, h, signable);
      && next.marks == s.marks && next.handlers == Without(s.handlers, h)
      && (next.grants == s.grants || next.grants == s.grants + [Grant(at.account, at.req, at.now, at.mark, signable)])
  {
  }

  lemma AdmitKeeps(l: Limits, s: State, h: nat, signable: bool)
    requires l.Valid() && Numbered(s) && OneUse(s)
    ensures Numbered(AfterIssueAdmit(l, s, h, signable)) && OneUse(AfterIssueAdmit(l, s, h, signable))
  {
    if h in s.handlers && s.handlers[h].Recorded? {
      AdmitMoves(l, s, h, signable);
    }
  }

  ghost predicate ReplayInv(s: State) {
    TableExplained(s) && Numbered(s) && OneUse(s)
  }

  /** A step that records nothing and admits nothing leaves the numbering alone. */
  lemma UseFramed(s: State, next: State)
    requires Numbered(s) && OneUse(s) && next.marks == s.marks && next.grants == s.grants
    requires forall h :: h in next.handlers && next.handlers[h].Recorded? ==>
        h in s.handlers && next.handlers[h] == s.handlers[h]
    ensures Numbered(next) && OneUse(next)
  {
  }

  /** A step that leaves the request ids alone and authenticates no one leaves the table explained. */
  lemma TableFramed(s: State, next: State)
    requires TableExplained(s) && next.marks == s.marks && next.seen == s.seen
    requires forall h :: h in next.handlers && next.handlers[h].Authentic? ==>
        h in s.handlers && next.handlers[h] == s.handlers[h]
    ensures TableExplained(next)
  {
  }

  lemma EnrollFramed(env: Env, l: Limits, s: State, step: Step)
    requires l.Valid() && (step.EnrollRead? || step.EnrollWrite? || step.EnrollRefetch? || step.EnrollFail?)
    ensures var next := Next(env, l, s, step);
      && next.marks == s.marks && next.grants == s.grants && next.seen == s.seen
      && forall h :: h in next.handlers && next.handlers[h].Issuing() ==>
           h in s.handlers && next.handlers[h] == s.handlers[h]
  {
  }

  lemma ReplayKept(env: Env, l: Limits, s: State, step: Step)
    requires l.Valid() && ReplayInv(s)
    ensures ReplayInv(Next(env, l, s, step))
  {
    var next := Next(env, l, s, step);
    match step
    case IssueRead(h, req, now) => ReadExplained(env, s, h, req, now); UseFramed(s, next);
    case IssueMark(h) => MarkExplained(s, h); MarkNumbered(s, h); MarkOneUse(s, h);
    case IssueAdmit(h, signable) => AdmitKeeps(l, s, h, signable); TableFramed(s, next);
    case _ => EnrollFramed(env, l, s, step); UseFramed(s, next); TableFramed(s, next);
  }

  lemma {:induction false} RunReplayInv(env: Env, l: Limits, steps: seq<Step>)
    requires l.Valid()
    ensures ReplayInv(Run(env, l, steps))
  {
    if steps != [] {
      RunReplayInv(env, l, steps[..|steps| - 1]);
      ReplayKept(env, l, Run(env, l, steps[..|steps| - 1]), steps[|steps| - 1]);
    }
  }

  /** On every interleaving in which clock values are out of order by at most 480 seconds, no two
      grants, and so no two blind signatures, are for one request id and timestamp, although the table
      forgets request ids after 600 seconds. */
  lemma IssuedAtMostOnce(env: Env, l: Limits, steps: seq<Step>, i: nat, j: nat)
    requires l.Valid() && i < j < |Run(env, l, steps).grants|
    requires SkewBounded(Run(env, l, steps).marks, TOLERATED_SKEW)
    ensures var grants := Run(env, l, steps).grants;
      || grants[i].req.fields.requestId != grants[j].req.fields.requestId
      || grants[i].req.fields.ts != grants[j].req.fields.ts
  {
    var s := Run(env, l, steps);
    RunReplayInv(env, l, steps);
    var a, b := s.grants[i], s.grants[j];
    if a.req.fields.requestId == b.req.fields.requestId && a.req.fields.ts == b.req.fields.ts {
      if a.mark < b.mark {
        AcceptedOnce(s.marks, DEFAULT_WINDOW, ISSUANCE_TS_WINDOW, TOLERATED_SKEW, a.mark, b.mark);
      } else {
        AcceptedOnce(s.marks, DEFAULT_WINDOW, ISSUANCE_TS_WINDOW, TOLERATED_SKEW, b.mark, a.mark);
      }
    }
  }
}
