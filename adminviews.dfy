/**
 * The roster operations of the administration views
 * (apps/admin_panel/views.py) and of the `init_approval_config` command, as
 * functions on the assignment and configuration tables: assigning, removing
 * and toggling an approver assignment, the resync that follows each of them
 * ("required approvals of the type = its active assignments"), and the
 * checks of a manual configuration update. `Wallet` applies them to its tables.
 */
module AdminViews {
  import opened Wrappers
  import opened Accounts
  import opened AdminPanel

  /**
   * Why an administration request is refused: a field missing (or empty, or
   * zero), an unknown row, a count outside 1..5, or an exception turned into
   * a server error.
   */
  datatype AdminError = MissingFields | NotFound | OutOfRange | ServerError

  predicate IsPair(a: Assignment, kind: TxType, id: UserId)
  {
    a.kind == kind && a.approver == id
  }

  /** Some row, active or not, links `id` to `kind`. */
  predicate HasPair(rows: seq<Assignment>, kind: TxType, id: UserId)
  {
    exists k :: 0 <= k < |rows| && IsPair(rows[k], kind, id)
  }

  /** `filter(transaction_type=kind, approver=approver).first()`, as a position. */
  function PairIndex(rows: seq<Assignment>, kind: TxType, id: UserId): (r: Option<nat>)
    ensures r.None? <==> !HasPair(rows, kind, id)
    ensures r.Some? ==> r.value < |rows| && IsPair(rows[r.value], kind, id)
  {
    if rows == [] then None
    else if IsPair(rows[0], kind, id) then Some(0)
    else
      assert forall k :: 1 <= k < |rows| ==> rows[k] == rows[1..][k - 1];
      match PairIndex(rows[1..], kind, id)
      case None => None
      case Some(k) => Some(k + 1)
  }

  /** Position of the assignment with that primary key. */
  function AssignmentIndex(rows: seq<Assignment>, id: nat): (r: Option<nat>)
    ensures r.None? <==> forall k :: 0 <= k < |rows| ==> rows[k].id != id
    ensures r.Some? ==> r.value < |rows| && rows[r.value].id == id
  {
    if rows == [] then None
    else if rows[0].id == id then Some(0)
    else
      assert forall k :: 1 <= k < |rows| ==> rows[k] == rows[1..][k - 1];
      match AssignmentIndex(rows[1..], id)
      case None => None
      case Some(k) => Some(k + 1)
  }

  // ---------------------------------------------------------------------------
  // Active counts under the three edits

  /** 1 when the row is an active row of `kind`, else 0. */
  function Weight(a: Assignment, kind: TxType): nat
  {
    if Selected(a, kind, true) then 1 else 0
  }

  lemma CountAppend(rows: seq<Assignment>, a: Assignment, kind: TxType)
    ensures ActiveCount(rows + [a], kind) == ActiveCount(rows, kind) + Weight(a, kind)
  {
    assert (rows + [a])[..|rows|] == rows;
  }

  /** Replacing one row changes the active count by the difference of the two rows' weights. */
  lemma {:induction false} CountUpdate(rows: seq<Assignment>, i: nat, a: Assignment, kind: TxType)
    requires i < |rows|
    ensures ActiveCount(rows[i := a], kind) + Weight(rows[i], kind) == ActiveCount(rows, kind) + Weight(a, kind)
  {
    var n := |rows|;
    if i == n - 1 {
      assert rows[i := a][..n - 1] == rows[..n - 1];
    } else {
      CountUpdate(rows[..n - 1], i, a, kind);
      assert rows[i := a][..n - 1] == rows[..n - 1][i := a];
    }
  }

  /** `assignment.delete()` on the row at `i`. */
  function Removed(rows: seq<Assignment>, i: nat): (r: seq<Assignment>)
    requires i < |rows|
    ensures |r| == |rows| - 1
  {
    rows[..i] + rows[i + 1..]
  }

  /** Deleting one row takes its weight off the active count. */
  lemma {:induction false} CountRemove(rows: seq<Assignment>, i: nat, kind: TxType)
    requires i < |rows|
    ensures ActiveCount(Removed(rows, i), kind) + Weight(rows[i], kind) == ActiveCount(rows, kind)
  {
    var n := |rows|;
    if i == n - 1 {
      assert Removed(rows, i) == rows[..n - 1];
    } else {
      CountRemove(rows[..n - 1], i, kind);
      assert Removed(rows, i) == Removed(rows[..n - 1], i) + [rows[n - 1]];
      CountAppend(Removed(rows[..n - 1], i), rows[n - 1], kind);
    }
  }

  /** A pair present in the table is still present after a row is appended. */
  lemma PairKeptByAppend(rows: seq<Assignment>, a: Assignment, kind: TxType, id: UserId)
    requires HasPair(rows, kind, id)
    ensures HasPair(rows + [a], kind, id)
  {
    var k :| 0 <= k < |rows| && IsPair(rows[k], kind, id);
    assert (rows + [a])[k] == rows[k];
  }

  // ---------------------------------------------------------------------------
  // assign, remove, toggle

  /**
   * Lines 77-93 of `assign_approver_view`: an existing row of the pair is
   * reactivated, otherwise a new active row with primary key `next` is appended.
   */
  function Assigned(rows: seq<Assignment>, kind: TxType, id: UserId, next: nat): seq<Assignment>
  {
    match PairIndex(rows, kind, id)
    case Some(i) => rows[i := rows[i].(isActive := true)]
    case None => rows + [Assignment(next, kind, id, true)]
  }

  /**
   * After an assign the pair has exactly one row and it is active (an
   * existing row is reused, never duplicated); every other row is still
   * there and nothing else is added.
   */
  lemma AssignedExactlyOne(rows: seq<Assignment>, kind: TxType, id: UserId, next: nat)
    requires UniqueAssignments(rows)
    ensures var r := Assigned(rows, kind, id, next);
            UniqueAssignments(r)
            && (exists k :: 0 <= k < |r| && IsPair(r[k], kind, id) && r[k].isActive)
            && (forall x :: x in rows && !IsPair(x, kind, id) ==> x in r)
            && (forall x :: x in r && !IsPair(x, kind, id) ==> x in rows)
            && |r| == if HasPair(rows, kind, id) then |rows| else |rows| + 1
  {
    var r := Assigned(rows, kind, id, next);
    match PairIndex(rows, kind, id)
    case Some(i) =>
      assert r[i].isActive && IsPair(r[i], kind, id);
      forall x | x in rows && !IsPair(x, kind, id) ensures x in r {
        var k :| 0 <= k < |rows| && rows[k] == x;
        assert r[k] == x;
      }
      forall x | x in r && !IsPair(x, kind, id) ensures x in rows {
        var k :| 0 <= k < |r| && r[k] == x;
        assert rows[k] == x;
      }
    case None =>
      assert IsPair(r[|rows|], kind, id);
  }

  /** An assign raises the type's active count by one unless the pair was already active. */
  lemma AssignedCount(rows: seq<Assignment>, kind: TxType, id: UserId, next: nat)
    requires UniqueAssignments(rows)
    ensures ActiveCount(Assigned(rows, kind, id, next), kind)
            == ActiveCount(rows, kind)
               + if exists k :: 0 <= k < |rows| && IsPair(rows[k], kind, id) && rows[k].isActive then 0 else 1
  {
    match PairIndex(rows, kind, id)
    case Some(i) =>
      CountUpdate(rows, i, rows[i].(isActive := true), kind);
      assert forall k :: 0 <= k < |rows| && IsPair(rows[k], kind, id) ==> k == i;
    case None =>
      CountAppend(rows, Assignment(next, kind, id, true), kind);
  }

  /**
   * `remove_approver_view` deletes exactly the named row: every row with
   * another primary key is still there, in the same order, and the named one is gone.
   */
  lemma RemovedExactlyOne(rows: seq<Assignment>, i: nat)
    requires i < |rows|
    requires forall p, q :: 0 <= p < q < |rows| ==> rows[p].id < rows[q].id
    ensures forall x :: x in Removed(rows, i) <==> x in rows && x.id != rows[i].id
  {
    var r := Removed(rows, i);
    RemovedAt(rows, i);
    forall x | x in r ensures x in rows && x.id != rows[i].id {
      var k :| 0 <= k < |r| && r[k] == x;
      var j := Skip(k, i);
      assert r[k] == rows[j] && j != i;
      if j < i { assert rows[j].id < rows[i].id; } else { assert rows[i].id < rows[j].id; }
    }
    forall x | x in rows && x.id != rows[i].id ensures x in r {
      var k :| 0 <= k < |rows| && rows[k] == x;
      var j := if k < i then k else k - 1;
      assert Skip(j, i) == k;
      assert r[j] == x;
    }
  }

  /** The position in the old table of row `k` of the table without row `i`. */
  function Skip(k: nat, i: nat): nat
  {
    if k < i then k else k + 1
  }

  /** Row `k` of the table without row `i` is row `Skip(k, i)` of the table. */
  lemma RemovedAt(rows: seq<Assignment>, i: nat)
    requires i < |rows|
    ensures forall k :: 0 <= k < |rows| - 1 ==> Removed(rows, i)[k] == rows[Skip(k, i)]
  {
  }

  /** Lines 187-189 of `toggle_approver_status_view`: `is_active = not is_active` on the row at `i`. */
  function Toggled(rows: seq<Assignment>, i: nat): (r: seq<Assignment>)
    requires i < |rows|
    ensures |r| == |rows| && r[i].isActive == !rows[i].isActive
    ensures r[i].(isActive := rows[i].isActive) == rows[i]
    ensures forall k :: 0 <= k < |rows| && k != i ==> r[k] == rows[k]
  {
    rows[i := rows[i].(isActive := !rows[i].isActive)]
  }

  /** Toggling the same row twice restores the table. */
  lemma ToggleTwice(rows: seq<Assignment>, i: nat)
    requires i < |rows|
    ensures Toggled(Toggled(rows, i), i) == rows
  {
    assert Toggled(Toggled(rows, i), i)[i] == rows[i];
  }

  /** A toggle moves its type's active count by exactly one, in the direction of the flip. */
  lemma ToggleCount(rows: seq<Assignment>, i: nat)
    requires i < |rows|
    ensures var kind := rows[i].kind;
            ActiveCount(Toggled(rows, i), kind)
            == if rows[i].isActive then ActiveCount(rows, kind) - 1 else ActiveCount(rows, kind) + 1
  {
    CountUpdate(rows, i, rows[i].(isActive := !rows[i].isActive), rows[i].kind);
  }

  // ---------------------------------------------------------------------------
  // The required-count resync

  /** The configuration row of `kind` exists and requires as many approvals as the type has active assignments. */
  predicate Synced(configs: seq<Config>, rows: seq<Assignment>, kind: TxType)
  {
    ConfigIndex(configs, kind).Some? && configs[ConfigIndex(configs, kind).value].requiredApprovals == ActiveCount(rows, kind)
  }

  /**
   * The `get_or_create` + `required_approvals = active_count` block that ends
   * assign, remove, toggle and each half of `init_approval_config`.
   */
  function Resync(configs: seq<Config>, rows: seq<Assignment>, kind: TxType): (r: seq<Config>)
    requires UniqueKinds(configs)
    ensures UniqueKinds(r) && Synced(r, rows, kind)
    ensures ConfigIndex(configs, kind).None? ==> r == configs + [Config(kind, ActiveCount(rows, kind), true)]
    ensures forall c :: c in r && c.kind != kind <==> c in configs && c.kind != kind
  {
    SetRequired(configs, kind, ActiveCount(rows, kind))
  }

  /** A resync of one type keeps another type synced. */
  lemma SyncedKept(configs: seq<Config>, rows: seq<Assignment>, kind: TxType, other: TxType, n: nat)
    requires UniqueKinds(configs) && Synced(configs, rows, kind) && other != kind
    ensures Synced(SetRequired(configs, other, n), rows, kind)
  {
    var r := SetRequired(configs, other, n);
    var i := ConfigIndex(configs, kind).value;
    assert configs[i] in r;
    var p :| 0 <= p < |r| && r[p] == configs[i];
    var j := ConfigIndex(r, kind).value;
    assert p == j;
  }

  /** Setting a row to the count it already has changes nothing. */
  lemma SetRequiredNoop(configs: seq<Config>, kind: TxType, n: nat)
    requires UniqueKinds(configs)
    requires ConfigIndex(configs, kind).Some? && configs[ConfigIndex(configs, kind).value].requiredApprovals == n
    ensures SetRequired(configs, kind, n) == configs
  {
    var i := ConfigIndex(configs, kind).value;
    assert configs[i := configs[i].(requiredApprovals := n)] == configs;
  }

  /** `init_approval_config`: resync DEPOSIT, then WITHDRAWAL. */
  function InitConfigs(configs: seq<Config>, rows: seq<Assignment>): (r: seq<Config>)
    requires UniqueKinds(configs)
    ensures UniqueKinds(r)
  {
    Resync(Resync(configs, rows, DEPOSIT), rows, WITHDRAWAL)
  }

  /** After the command both types are synced, rows created where missing. */
  lemma InitConfigsSynced(configs: seq<Config>, rows: seq<Assignment>)
    requires UniqueKinds(configs)
    ensures Synced(InitConfigs(configs, rows), rows, DEPOSIT)
    ensures Synced(InitConfigs(configs, rows), rows, WITHDRAWAL)
  {
    SyncedKept(Resync(configs, rows, DEPOSIT), rows, DEPOSIT, WITHDRAWAL, ActiveCount(rows, WITHDRAWAL));
  }

  /** Running the command twice leaves the same configurations as running it once. */
  lemma InitConfigsIdempotent(configs: seq<Config>, rows: seq<Assignment>)
    requires UniqueKinds(configs)
    ensures InitConfigs(InitConfigs(configs, rows), rows) == InitConfigs(configs, rows)
  {
    var c := InitConfigs(configs, rows);
    InitConfigsSynced(configs, rows);
    SetRequiredNoop(c, DEPOSIT, ActiveCount(rows, DEPOSIT));
    SetRequiredNoop(c, WITHDRAWAL, ActiveCount(rows, WITHDRAWAL));
  }

  // ---------------------------------------------------------------------------
  // Request checks

  /**
   * The checks of `assign_approver_view` before any write: both fields
   * present and non-empty, then an existing user (any role).
   */
  function AssignCheck(kind: Option<string>, approverId: Option<UserId>, users: seq<User>): (r: Result<(TxType, UserId), AdminError>)
    ensures r.Ok? <==> kind.Some? && kind.value != "" && approverId.Some?
                       && exists u :: u in users && u.id == approverId.value
    ensures (kind.None? || kind == Some("") || approverId.None?) ==> r == Err(MissingFields)
    ensures r.Err? ==> r.error in {MissingFields, NotFound}
    ensures r.Ok? ==> r.value == (kind.value, approverId.value)
  {
    if kind.None? || kind.value == "" || approverId.None? then Err(MissingFields)
    else if !exists u :: u in users && u.id == approverId.value then Err(NotFound)
    else Ok((kind.value, approverId.value))
  }

  /**
   * The checks of `update_approval_config_view`: a count that is missing or
   * not an integer raises in `int()` (a server error); an empty type or a
   * zero count is a missing field; otherwise the count must lie in 1..5.
   */
  function UpdateConfigCheck(kind: Option<string>, required: Option<int>): (r: Result<(TxType, nat), AdminError>)
    ensures r.Ok? <==> required.Some? && kind.Some? && kind.value != "" && 1 <= required.value <= 5
    ensures r.Ok? ==> r.value == (kind.value, required.value)
    ensures required.None? ==> r == Err(ServerError)
    ensures required == Some(0) ==> r == Err(MissingFields)
    ensures required.Some? && kind.Some? && kind.value != "" && required.value != 0 && !(1 <= required.value <= 5)
            ==> r == Err(OutOfRange)
  {
    if required.None? then Err(ServerError)
    else if kind.None? || kind.value == "" || required.value == 0 then Err(MissingFields)
    else if required.value < 1 || required.value > 5 then Err(OutOfRange)
    else Ok((kind.value, required.value))
  }
}
