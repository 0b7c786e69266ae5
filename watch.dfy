/**
 * The `Watching` record of main.go and the per-address update rule
 * `UpdateAddressMetrics`. The five chain reads of one update arrive as a
 * `Fetch`; the wall clock arrives as `now`.
 */
module Watch {
  import opened Options
  import opened Strings

  /** The value held by one `Watching` record at one moment. */
  datatype Record = Record(
    name: string,
    address: string,
    balance: string,
    balancePending: string,
    nonce: Uint64,
    noncePending: Uint64,
    isContract: bool,
    codeSize: nat,
    lastUpdated: Int64)

  /** A record as the loader creates it: balances "0", everything else zero. */
  function Initial(name: string, address: string): Record {
    Record(name, address, "0", "0", 0, 0, false, 0, 0)
  }

  /**
   * The outcome of the five reads of one update, each None when the call
   * failed or timed out. The balances carry the decimal text the ether
   * conversion produced; the code read carries the contract bytecode.
   */
  datatype Fetch = Fetch(
    balance: Option<string>,
    balancePending: Option<string>,
    nonce: Option<Uint64>,
    noncePending: Option<Uint64>,
    code: Option<seq<bv8>>)

  /** The record after one update: each fetched field, or that field's zero value. */
  function Applied(r: Record, f: Fetch, now: Int64): Record {
    Record(
      r.name,
      r.address,
      f.balance.GetOr(""),
      f.balancePending.GetOr(""),
      f.nonce.GetOr(0),
      f.noncePending.GetOr(0),
      f.code.Some? && |f.code.value| > 0,
      if f.code.Some? then |f.code.value| else 0,
      now)
  }

  /** What every record in the table satisfies: a valid address, and the contract flag agrees with the code size. */
  predicate WellFormed(r: Record) {
    IsHexAddress(r.address) && r.isContract == (r.codeSize > 0)
  }

  /** An update keeps the record's identity and always stamps it with `now`. */
  lemma AppliedKeepsIdentity(r: Record, f: Fetch, now: Int64)
    ensures Applied(r, f, now).name == r.name
    ensures Applied(r, f, now).address == r.address
    ensures Applied(r, f, now).lastUpdated == now
  {
  }

  /** Every field is overwritten: the prior readings do not survive an update. */
  lemma AppliedForgetsPrior(r1: Record, r2: Record, f: Fetch, now: Int64)
    requires r1.name == r2.name && r1.address == r2.address
    ensures Applied(r1, f, now) == Applied(r2, f, now)
  {
  }

  /**
   * Fields are independent: a field depends on its own read only, so a failed
   * read blanks that field and no other.
   */
  lemma AppliedFieldsIndependent(r: Record, f: Fetch, g: Fetch, now: Int64)
    ensures f.balance == g.balance ==> Applied(r, f, now).balance == Applied(r, g, now).balance
    ensures f.balancePending == g.balancePending ==>
      Applied(r, f, now).balancePending == Applied(r, g, now).balancePending
    ensures f.nonce == g.nonce ==> Applied(r, f, now).nonce == Applied(r, g, now).nonce
    ensures f.noncePending == g.noncePending ==>
      Applied(r, f, now).noncePending == Applied(r, g, now).noncePending
    ensures f.code == g.code ==>
      Applied(r, f, now).isContract == Applied(r, g, now).isContract &&
      Applied(r, f, now).codeSize == Applied(r, g, now).codeSize
  {
  }

  /** A failed read leaves the zero value of its field, not the previous reading. */
  lemma AppliedBlanksFailures(r: Record, f: Fetch, now: Int64)
    ensures f.balance.None? ==> Applied(r, f, now).balance == ""
    ensures f.balancePending.None? ==> Applied(r, f, now).balancePending == ""
    ensures f.nonce.None? ==> Applied(r, f, now).nonce == 0
    ensures f.noncePending.None? ==> Applied(r, f, now).noncePending == 0
    ensures f.code.None? ==> !Applied(r, f, now).isContract && Applied(r, f, now).codeSize == 0
  {
  }

  /** After an update the contract flag is exactly "the code is non-empty". */
  lemma AppliedWellFormed(r: Record, f: Fetch, now: Int64)
    requires IsHexAddress(r.address)
    ensures WellFormed(Applied(r, f, now))
    ensures Applied(r, f, now).codeSize == (if f.code.Some? then |f.code.value| else 0)
  {
  }

  /** Repeating an update with the same reads changes nothing more. */
  lemma AppliedIdempotent(r: Record, f: Fetch, now: Int64)
    ensures Applied(Applied(r, f, now), f, now) == Applied(r, f, now)
  {
  }

  /** The loader's fresh records are well formed whenever their address is valid. */
  lemma InitialWellFormed(name: string, address: string)
    requires IsHexAddress(address)
    ensures WellFormed(Initial(name, address))
  {
  }

  /** Every row of a table is well formed. */
  predicate AllWellFormed(t: seq<Record>) {
    t == [] || (AllWellFormed(t[..|t| - 1]) && WellFormed(t[|t| - 1]))
  }

  /** `AllWellFormed` holds exactly when each row is well formed. */
  lemma {:induction false} AllWellFormedAt(t: seq<Record>)
    ensures AllWellFormed(t) <==> forall i :: 0 <= i < |t| ==> WellFormed(t[i])
  {
    if t != [] {
      var init := t[..|t| - 1];
      AllWellFormedAt(init);
      assert forall i :: 0 <= i < |init| ==> init[i] == t[i];
    }
  }

  /** Appending a well-formed row keeps a table well formed. */
  lemma AllWellFormedSnoc(t: seq<Record>, r: Record)
    requires AllWellFormed(t) && WellFormed(r)
    ensures AllWellFormed(t + [r])
  {
    assert (t + [r])[..|t|] == t;
  }

  /** A pass that applies an update to every row keeps every row well formed. */
  lemma SweepKeepsWellFormed(before: seq<Record>, after: seq<Record>, results: seq<Fetch>, clock: seq<Int64>)
    requires |after| == |before| == |results| == |clock|
    requires AllWellFormed(before)
    requires forall k :: 0 <= k < |before| ==> after[k] == Applied(before[k], results[k], clock[k])
    ensures AllWellFormed(after)
  {
    AllWellFormedAt(before);
    AllWellFormedAt(after);
    forall k | 0 <= k < |after| ensures WellFormed(after[k]) {
      AppliedWellFormed(before[k], results[k], clock[k]);
    }
  }

  /** A `Watching` record: the sweep updates its fields in place. */
  class Watching {
    var name: string
    var address: string
    var balance: string
    var balancePending: string
    var nonce: Uint64
    var noncePending: Uint64
    var isContract: bool
    var codeSize: nat
    var lastUpdated: Int64

    /** The record's current readings as a value. */
    function Value(): Record
      reads this
    {
      Record(name, address, balance, balancePending, nonce, noncePending, isContract, codeSize, lastUpdated)
    }

    /** The record literal of the loader. */
    constructor (name: string, address: string)
      ensures Value() == Initial(name, address)
    {
      this.name := name;
      this.address := address;
      balance := "0";
      balancePending := "0";
      nonce := 0;
      noncePending := 0;
      isContract := false;
      codeSize := 0;
      lastUpdated := 0;
    }
  }

  /** No record object occurs twice. */
  ghost predicate Distinct(ws: seq<Watching>) {
    ws == [] || (ws[|ws| - 1] !in ws[..|ws| - 1] && Distinct(ws[..|ws| - 1]))
  }

  /** Appending an object not yet listed keeps the list free of repeats. */
  lemma DistinctSnoc(ws: seq<Watching>, w: Watching)
    requires Distinct(ws) && w !in ws
    ensures Distinct(ws + [w])
  {
    assert (ws + [w])[..|ws|] == ws;
  }

  /** In a list free of repeats, different positions hold different objects. */
  lemma {:induction false} DistinctAt(ws: seq<Watching>, i: nat, j: nat)
    requires Distinct(ws) && i < j < |ws|
    ensures ws[i] != ws[j]
  {
    var init := ws[..|ws| - 1];
    if j < |ws| - 1 {
      DistinctAt(init, i, j);
    } else {
      assert ws[i] == init[i];
    }
  }

  /** The values of a sequence of records, in order. */
  function Rows(ws: seq<Watching>): (t: seq<Record>)
    reads ws
    ensures |t| == |ws|
  {
    if ws == [] then [] else Rows(ws[..|ws| - 1]) + [ws[|ws| - 1].Value()]
  }

  /** Row `i` of the table is the value of record `i`. */
  lemma {:induction false} RowsAt(ws: seq<Watching>, i: nat)
    requires i < |ws|
    ensures Rows(ws)[i] == ws[i].Value()
  {
    if i < |ws| - 1 {
      RowsAt(ws[..|ws| - 1], i);
    }
  }

  /** Appending a record appends its value to the table. */
  lemma RowsSnoc(ws: seq<Watching>, w: Watching)
    ensures Rows(ws + [w]) == Rows(ws) + [w.Value()]
  {
    assert (ws + [w])[..|ws|] == ws;
  }

  /**
   * `UpdateAddressMetrics`: gathers the five reads into locals that start at
   * their zero values, then writes all of them, and the time, into `w`.
   */
  method UpdateAddressMetrics(w: Watching, f: Fetch, now: Int64)
    modifies w
    ensures w.Value() == Applied(old(w.Value()), f, now)
  {
    var balanceStr, pendingStr := "", "";
    var nonce, pnonce: Uint64 := 0, 0;
    var isContract := false;
    var codeSize: nat := 0;

    if f.balance.Some? {
      balanceStr := f.balance.value;
    }
    if f.balancePending.Some? {
      pendingStr := f.balancePending.value;
    }
    if f.nonce.Some? {
      nonce := f.nonce.value;
    }
    if f.noncePending.Some? {
      pnonce := f.noncePending.value;
    }
    if f.code.Some? {
      codeSize := |f.code.value|;
      isContract := |f.code.value| > 0;
    }

    w.balance := balanceStr;
    w.balancePending := pendingStr;
    w.nonce := nonce;
    w.noncePending := pnonce;
    w.isContract := isContract;
    w.codeSize := codeSize;
    w.lastUpdated := now;
  }

  /**
   * The body of one refresh pass, run sequentially over a copy of the watch
   * list: record `k` is updated once with its own reads `results[k]` taken at
   * `clock[k]`, and a well-formed table stays well formed.
   */
  method UpdateAll(ws: seq<Watching>, results: seq<Fetch>, clock: seq<Int64>)
    requires Distinct(ws)
    requires |results| == |ws| && |clock| == |ws|
    modifies ws
    ensures forall k :: 0 <= k < |ws| ==> ws[k].Value() == Applied(old(ws[k].Value()), results[k], clock[k])
    ensures old(AllWellFormed(Rows(ws))) ==> AllWellFormed(Rows(ws))
  {
    ghost var before := Rows(ws);
    forall k | 0 <= k < |ws| ensures before[k] == ws[k].Value() {
      RowsAt(ws, k);
    }
    forall i, j | 0 <= i < j < |ws| ensures ws[i] != ws[j] {
      DistinctAt(ws, i, j);
    }
    var i := 0;
    while i < |ws|
      invariant 0 <= i <= |ws|
      invariant forall k :: 0 <= k < i ==> ws[k].Value() == Applied(before[k], results[k], clock[k])
      invariant forall k :: i <= k < |ws| ==> ws[k].Value() == before[k]
    {
      UpdateAddressMetrics(ws[i], results[i], clock[i]);
      i := i + 1;
    }
    if AllWellFormed(before) {
      forall k | 0 <= k < |ws| ensures Rows(ws)[k] == Applied(before[k], results[k], clock[k]) {
        RowsAt(ws, k);
      }
      SweepKeepsWellFormed(before, Rows(ws), results, clock);
    }
  }
}
