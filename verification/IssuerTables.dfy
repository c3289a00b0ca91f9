/** The issuer's two tables: accounts, one per device key, and the request ids seen recently. */
module IssuerTables {
  import opened Wrappers
  import opened Bytes

  datatype Account = Account(accountId: Bytes, devicePub: Bytes, maxScope: int, enrolledAt: int, expiresAt: int)

  type Rows = seq<Account>

  /** Request ids with the time they were recorded. */
  type Seen = map<Bytes, int>

  // ---------------------------------------------------------------- the accounts table

  function FindById(rows: Rows, id: Bytes): (r: Option<Account>)
    ensures r.Some? ==> r.value in rows && r.value.accountId == id
    ensures r.None? ==> forall a :: a in rows ==> a.accountId != id
  {
    if rows == [] then None else if rows[0].accountId == id then Some(rows[0]) else FindById(rows[1..], id)
  }

  function FindByDevice(rows: Rows, devicePub: Bytes): (r: Option<Account>)
    ensures r.Some? ==> r.value in rows && r.value.devicePub == devicePub
    ensures r.None? ==> forall a :: a in rows ==> a.devicePub != devicePub
  {
    if rows == [] then None else if rows[0].devicePub == devicePub then Some(rows[0])
    else FindByDevice(rows[1..], devicePub)
  }

  /** The primary key and the unique index. */
  ghost predicate UniqueRows(rows: Rows) {
    forall i, j :: 0 <= i < j < |rows| ==>
      rows[i].accountId != rows[j].accountId && rows[i].devicePub != rows[j].devicePub
  }

  predicate Insertable(rows: Rows, a: Account) {
    FindById(rows, a.accountId).None? && FindByDevice(rows, a.devicePub).None?
  }

  /** The rows with new scope and dates for one account id. */
  function Renewed(rows: Rows, id: Bytes, maxScope: int, enrolledAt: int, expiresAt: int): (r: Rows)
    ensures |r| == |rows|
    ensures forall i :: 0 <= i < |rows| ==> r[i].accountId == rows[i].accountId && r[i].devicePub == rows[i].devicePub
    ensures forall i :: 0 <= i < |rows| && rows[i].accountId != id ==> r[i] == rows[i]
    ensures forall i :: 0 <= i < |rows| && rows[i].accountId == id ==>
      r[i] == Account(id, rows[i].devicePub, maxScope, enrolledAt, expiresAt)
  {
    seq(|rows|, i requires 0 <= i < |rows| =>
      if rows[i].accountId == id then Account(id, rows[i].devicePub, maxScope, enrolledAt, expiresAt) else rows[i])
  }

  // ---------------------------------------------------------------- the request id table

  /** The ids recorded at most `window` seconds ago. */
  function Swept(seen: Seen, now: int, window: int): Seen {
    seen - (set id | id in seen && seen[id] < now - window)
  }

  /** The table after an id arrives: old ids gone, and this one with its first recorded time. */
  function Marked(seen: Seen, requestId: Bytes, now: int, window: int): Seen {
    var kept := Swept(seen, now, window);
    if requestId in kept then kept else kept[requestId := now]
  }

  predicate IsNew(seen: Seen, requestId: Bytes, now: int, window: int) {
    requestId !in Swept(seen, now, window)
  }

  const DEFAULT_WINDOW := 600

  class IssuerStore {
    var accounts: Rows
    var seen: Seen

    ghost predicate Valid()
      reads this
    {
      UniqueRows(accounts)
    }

    constructor ()
      ensures Valid() && accounts == [] && seen == map[]
    {
      accounts, seen := [], map[];
    }

    /** Insert a row, unless its id or its device key is taken. */
    method AddAccount(account: Account) returns (added: bool)
      requires Valid()
      modifies this`accounts
      ensures Valid()
      ensures added == Insertable(old(accounts), account)
      ensures accounts == if added then old(accounts) + [account] else old(accounts)
    {
      added := FindById(accounts, account.accountId).None? && FindByDevice(accounts, account.devicePub).None?;
      if added {
        accounts := accounts + [account];
      }
    }

    method GetAccount(id: Bytes) returns (r: Option<Account>)
      ensures r == FindById(accounts, id)
    {
      r := FindById(accounts, id);
    }

    method GetAccountByDevice(devicePub: Bytes) returns (r: Option<Account>)
      ensures r == FindByDevice(accounts, devicePub)
    {
      r := FindByDevice(accounts, devicePub);
    }

    method RenewAccount(id: Bytes, maxScope: int, enrolledAt: int, expiresAt: int)
      requires Valid()
      modifies this`accounts
      ensures Valid() && accounts == Renewed(old(accounts), id, maxScope, enrolledAt, expiresAt)
    {
      accounts := Renewed(accounts, id, maxScope, enrolledAt, expiresAt);
    }

    /** Sweep, then take the id in unless it is still there. */
    method MarkRequest(requestId: Bytes, now: int, window: int) returns (isNew: bool)
      modifies this`seen
      ensures isNew == IsNew(old(seen), requestId, now, window)
      ensures seen == Marked(old(seen), requestId, now, window)
    {
      seen := Swept(seen, now, window);
      isNew := requestId !in seen;
      if isNew {
        seen := seen[requestId := now];
      }
    }
  }

  // ---------------------------------------------------------------- at most once

  /** A request that passed the timestamp check, at the moment it reaches the table. */
  datatype Mark = Mark(requestId: Bytes, ts: int, now: int)

  /** The table after a run of marks. */
  function SeenAfter(marks: seq<Mark>, window: int): Seen {
    if marks == [] then map[]
    else
      var last := marks[|marks| - 1];
      Marked(SeenAfter(marks[..|marks| - 1], window), last.requestId, last.now, window)
  }

  /** Mark `i` of a run finds its request id unseen. */
  predicate AcceptedMark(marks: seq<Mark>, window: int, i: nat)
    requires i < |marks|
  {
    IsNew(SeenAfter(marks[..i], window), marks[i].requestId, marks[i].now, window)
  }

  /** Every timestamp is within `tsWindow` of the clock value it was checked with. */
  predicate Timely(marks: seq<Mark>, tsWindow: int) {
    forall i :: 0 <= i < |marks| ==> -tsWindow <= marks[i].ts - marks[i].now <= tsWindow
  }

  /** Clock values reach the table out of order by at most `skew` seconds: zero for one handler at a
      time, more when handlers that have read the clock are delayed. */
  predicate SkewBounded(marks: seq<Mark>, skew: int) {
    forall i, j :: 0 <= i < j < |marks| ==> marks[i].now - skew <= marks[j].now
  }

  lemma SeenStep(marks: seq<Mark>, window: int, n: nat)
    requires n < |marks|
    ensures SeenAfter(marks[..n + 1], window)
         == Marked(SeenAfter(marks[..n], window), marks[n].requestId, marks[n].now, window)
  {
    assert marks[..n + 1][..n] == marks[..n];
  }

  /** An accepted id stays in the table as long as no later clock value has left the window. */
  lemma {:induction false} IdRemembered(marks: seq<Mark>, window: int, i: nat, n: nat)
    requires i < n <= |marks| && AcceptedMark(marks, window, i) && window >= 0
    requires forall m :: i < m < n ==> marks[m].now - window <= marks[i].now
    ensures var seen := SeenAfter(marks[..n], window);
      marks[i].requestId in seen && seen[marks[i].requestId] == marks[i].now
  {
    SeenStep(marks, window, n - 1);
    if n - 1 > i {
      IdRemembered(marks, window, i, n - 1);
    }
  }

  /** No request, identified by its id and timestamp, is accepted twice in any run, although the table
      forgets: the retention covers twice the timestamp window plus the skew. */
  lemma AcceptedOnce(marks: seq<Mark>, window: int, tsWindow: int, skew: int, i: nat, j: nat)
    requires Timely(marks, tsWindow) && SkewBounded(marks, skew) && tsWindow >= 0 && skew >= 0
    requires window >= 2 * tsWindow + skew
    requires i < j < |marks| && marks[i].requestId == marks[j].requestId && marks[i].ts == marks[j].ts
    requires AcceptedMark(marks, window, i)
    ensures !AcceptedMark(marks, window, j)
  {
    forall m | i < m < j
      ensures marks[m].now - window <= marks[i].now
    {
      assert marks[m].now - skew <= marks[j].now;
    }
    IdRemembered(marks, window, i, j);
  }

  /** A run that accepts one request twice when the retention is any shorter. */
  function ReplayRun(id: Bytes, other: Bytes, tsWindow: nat, skew: nat): seq<Mark> {
    var late := 2 * tsWindow + skew;
    [Mark(id, tsWindow, 0), Mark(other, late, late), Mark(id, tsWindow, 2 * tsWindow)]
  }

  lemma ReplayWhenTooShort(id: Bytes, other: Bytes, window: int, tsWindow: nat, skew: nat)
    requires id != other && window < 2 * tsWindow + skew
    ensures var run := ReplayRun(id, other, tsWindow, skew);
      && Timely(run, tsWindow) && SkewBounded(run, skew)
      && AcceptedMark(run, window, 0) && AcceptedMark(run, window, 2)
  {
    var run := ReplayRun(id, other, tsWindow, skew);
    assert run[..0] == [];
    SeenStep(run, window, 0);
    SeenStep(run, window, 1);
    var late := 2 * tsWindow + skew;
    assert SeenAfter(run[..1], window) == map[id := 0];
    assert SeenAfter(run[..2], window).Keys == {other};
  }

  /** Marks `i` and `j` are of one request and the first of them is accepted. */
  predicate Repeats(marks: seq<Mark>, window: int, i: nat, j: nat) {
    && i < j < |marks|
    && marks[i].requestId == marks[j].requestId && marks[i].ts == marks[j].ts
    && AcceptedMark(marks, window, i)
  }

  ghost predicate NeverTwice(window: int, tsWindow: nat, skew: nat) {
    forall marks: seq<Mark>, i: nat, j: nat ::
      Timely(marks, tsWindow) && SkewBounded(marks, skew) && Repeats(marks, window, i, j) ==>
        !AcceptedMark(marks, window, j)
  }

  /** The exact condition: replays are excluded on all runs if and only if the retention is at least
      twice the timestamp window plus the skew. */
  lemma RetentionExact(window: int, tsWindow: nat, skew: nat)
    ensures NeverTwice(window, tsWindow, skew) <==> window >= 2 * tsWindow + skew
  {
    if window >= 2 * tsWindow + skew {
      forall marks: seq<Mark>, i: nat, j: nat |
        Timely(marks, tsWindow) && SkewBounded(marks, skew) && Repeats(marks, window, i, j)
        ensures !AcceptedMark(marks, window, j)
      {
        AcceptedOnce(marks, window, tsWindow, skew, i, j);
      }
    } else {
      var run := ReplayRun([0], [1], tsWindow, skew);
      ReplayWhenTooShort([0], [1], window, tsWindow, skew);
      assert Repeats(run, window, 0, 2);
    }
  }
}
