/**
 * The process-wide state of main.go (`allWatching`, `prefix`, `loadSeconds`,
 * `totalLoaded`) and the operations that change or read it: the loader, one
 * pass of the refresh loop, and the `/metrics` handler; plus the rule that
 * picks the sleep interval.
 */
module Exporter {
  import opened Options
  import opened Strings
  import opened Watch
  import opened Loader
  import opened Metrics
  import opened Seqs

  /** Why loading failed: no entry qualified under the (defaulted) prefix. */
  datatype LoadError = NoAddressesFound(prefix: string)

  const DefaultSleepSeconds: int := 15

  /**
   * The sleep interval for the configured `SLEEP_SECONDS` text `v` (empty when
   * unset): the parsed value when it is a positive integer, 15 otherwise.
   */
  function SleepSeconds(v: string): (r: int)
    ensures r > 0
    ensures Atoi(v).Some? && Atoi(v).value > 0 ==> r == Atoi(v).value
    ensures !(Atoi(v).Some? && Atoi(v).value > 0) ==> r == DefaultSleepSeconds
  {
    if v == "" then DefaultSleepSeconds
    else
      match Atoi(v)
      case Some(n) => if n > 0 then n else DefaultSleepSeconds
      case None => DefaultSleepSeconds
  }

  /** Configuring any positive 64-bit count of seconds, written in decimal, yields that interval. */
  lemma SleepSecondsPositive(n: int)
    requires 0 < n <= MaxInt64
    ensures SleepSeconds(Decimal(n)) == n
  {
    AtoiDecimal(n);
  }

  /** Configuring zero or a negative count falls back to the default. */
  lemma SleepSecondsNonPositive(n: int)
    requires MinInt64 <= n <= 0
    ensures SleepSeconds(Decimal(n)) == DefaultSleepSeconds
  {
    AtoiDecimal(n);
  }

  /** The exporter's global state. */
  class Exporter {
    /** The watch list, one record per loaded address, in loading order. */
    var allWatching: seq<Watching>
    /** The metric name prefix (`PREFIX`). */
    var prefix: string
    /** The `%0.2f` text of the last sweep's duration in seconds. */
    var loadSeconds: string
    /** The number of records the last sweep covered. */
    var totalLoaded: int

    /** Records are distinct objects, each well formed. */
    ghost predicate Valid()
      reads this, allWatching
    {
      Distinct(allWatching)
      && AllWellFormed(Rows(allWatching))
    }

    /** The state before `main` has loaded anything. */
    constructor (prefix: string)
      ensures Valid()
      ensures allWatching == [] && this.prefix == prefix
      ensures loadSeconds == "0.00" && totalLoaded == 0
    {
      allWatching := [];
      this.prefix := prefix;
      loadSeconds := "0.00";
      totalLoaded := 0;
    }

    /** Appends a freshly initialised record for `name` and `address` to the watch list. */
    method AppendWatching(name: string, address: string) returns (w: Watching)
      requires Valid() && IsHexAddress(address)
      modifies this
      ensures Valid()
      ensures Rows(allWatching) == old(Rows(allWatching)) + [Initial(name, address)]
      ensures allWatching == old(allWatching) + [w] && fresh(w)
      ensures prefix == old(prefix) && loadSeconds == old(loadSeconds) && totalLoaded == old(totalLoaded)
    {
      w := new Watching(name, address);
      DistinctSnoc(allWatching, w);
      RowsSnoc(allWatching, w);
      InitialWellFormed(name, address);
      AllWellFormedSnoc(Rows(allWatching), w.Value());
      allWatching := allWatching + [w];
    }

    /**
     * The loader's loop body for entry `i` of `environ`: appends the entry's
     * record when it qualifies, so the table grows by exactly what loading
     * that entry adds.
     */
    method LoadEntry(environ: seq<string>, i: nat, p: string, lowerPrefix: string, ghost base: seq<Record>)
      returns (loaded: bool)
      requires i < |environ| && lowerPrefix == ToLower(p)
      requires Valid() && Rows(allWatching) == base + Entries(environ[..i], p)
      modifies this
      ensures Valid() && Rows(allWatching) == base + Entries(environ[..i + 1], p)
      ensures |allWatching| == |old(allWatching)| + (if loaded then 1 else 0)
      ensures allWatching[..|old(allWatching)|] == old(allWatching)
      ensures prefix == old(prefix) && loadSeconds == old(loadSeconds) && totalLoaded == old(totalLoaded)
    {
      var entry := ScanEntry(environ[i], p, lowerPrefix);
      EntriesStep(environ, i, p, Entries(environ[..i], p), entry);
      if entry.Some? {
        var w := AppendWatching(entry.value.0, entry.value.1);
        SnocAssoc(base, Entries(environ[..i], p), Initial(entry.value.0, entry.value.1));
        loaded := true;
      } else {
        loaded := false;
      }
    }

    /**
     * The loader's loop: scans every entry of `environ` under prefix `p` and
     * returns how many records it appended.
     */
    method LoadAll(environ: seq<string>, p: string) returns (loaded: nat)
      requires Valid()
      modifies this
      ensures Valid() && Rows(allWatching) == old(Rows(allWatching)) + Entries(environ, p)
      ensures |allWatching| == |old(allWatching)| + loaded && allWatching[..|old(allWatching)|] == old(allWatching)
      ensures prefix == old(prefix) && loadSeconds == old(loadSeconds) && totalLoaded == old(totalLoaded)
    {
      var lowerPrefix := ToLower(p);
      loaded := 0;
      ghost var base := Rows(allWatching);
      var i := 0;
      while i < |environ|
        invariant 0 <= i <= |environ|
        invariant Valid() && Rows(allWatching) == base + Entries(environ[..i], p)
        invariant |allWatching| == |old(allWatching)| + loaded && allWatching[..|old(allWatching)|] == old(allWatching)
        invariant prefix == old(prefix) && loadSeconds == old(loadSeconds) && totalLoaded == old(totalLoaded)
      {
        var ok := LoadEntry(environ, i, p, lowerPrefix, base);
        if ok {
          loaded := loaded + 1;
        }
        i := i + 1;
      }
      assert environ[..|environ|] == environ;
    }

    /**
     * `OpenAddressesFromEnv`: appends a fresh record for every entry of
     * `environ` that qualifies under `envPrefix` ("ethaddr_" when empty), in
     * listing order, and fails exactly when nothing was appended.
     */
    method OpenAddressesFromEnv(environ: seq<string>, envPrefix: string) returns (err: Option<LoadError>)
      requires Valid()
      modifies this
      ensures Valid()
      ensures prefix == old(prefix) && loadSeconds == old(loadSeconds) && totalLoaded == old(totalLoaded)
      ensures Rows(allWatching) == old(Rows(allWatching)) + Entries(environ, EffectivePrefix(envPrefix))
      ensures |old(allWatching)| <= |allWatching| && allWatching[..|old(allWatching)|] == old(allWatching)
      ensures err.Some? <==> allWatching == old(allWatching)
      ensures err.Some? <==> Entries(environ, EffectivePrefix(envPrefix)) == []
      ensures err.Some? ==> err.value == NoAddressesFound(EffectivePrefix(envPrefix))
    {
      var p := envPrefix;
      if p == "" {
        p := DefaultPrefix;
      }
      assert p == EffectivePrefix(envPrefix);
      var loaded := LoadAll(environ, p);
      if loaded == 0 {
        err := Some(NoAddressesFound(p));
      } else {
        err := None;
      }
    }

    /**
     * One pass of the refresh loop, run sequentially: every record of a copy of
     * the watch list is updated once with its own reads `results[i]` taken at
     * `clock[i]`; the pass also records its duration and how many it covered.
     * The two summary fields are written before the records here; in this
     * sequential model nothing can observe the difference from writing them
     * after.
     */
    method Sweep(results: seq<Fetch>, clock: seq<Int64>, elapsed: string)
      requires Valid()
      requires |results| == |allWatching| && |clock| == |allWatching|
      modifies this, allWatching
      ensures Valid()
      ensures allWatching == old(allWatching) && prefix == old(prefix)
      ensures forall i :: 0 <= i < |allWatching| ==>
        allWatching[i].Value() == Applied(old(allWatching[i].Value()), results[i], clock[i])
      ensures loadSeconds == elapsed
      ensures totalLoaded == |allWatching|
    {
      var snapshot := allWatching;
      loadSeconds := elapsed;
      totalLoaded := |snapshot|;
      UpdateAll(snapshot, results, clock);
    }

    /**
     * The seven lines `MetricsHttp` writes for one record: balance and pending
     * balance ("0" when never fetched), nonce and pending nonce, the contract
     * flag as 1 or 0, the code size and the last update time.
     */
    method RenderRecord(v: Watching) returns (lines: seq<string>)
      ensures lines == Block(prefix, v.Value())
    {
      var balStr := v.balance;
      if balStr == "" {
        balStr := "0";
      }
      var pbalStr := v.balancePending;
      if pbalStr == "" {
        pbalStr := "0";
      }
      var contractStr := "0";
      if v.isContract {
        contractStr := "1";
      }
      lines := [
        Labelled(prefix, "eth_balance", v.name, v.address, balStr),
        Labelled(prefix, "eth_balance_pending", v.name, v.address, pbalStr),
        Labelled(prefix, "eth_nonce", v.name, v.address, Decimal(v.nonce)),
        Labelled(prefix, "eth_nonce_pending", v.name, v.address, Decimal(v.noncePending)),
        Labelled(prefix, "eth_is_contract", v.name, v.address, contractStr),
        Labelled(prefix, "eth_code_size_bytes", v.name, v.address, Decimal(v.codeSize)),
        Labelled(prefix, "eth_last_updated_unixtime", v.name, v.address, Decimal(v.lastUpdated)) ];
    }

    /**
     * The per-record part of `MetricsHttp`: the blocks of all records in table
     * order, with the contract and EOA counts taken on the way.
     */
    method RenderTable() returns (allOut: seq<string>, contracts: nat, eoas: nat)
      ensures allOut == Blocks(prefix, Rows(allWatching))
      ensures contracts == ContractCount(Rows(allWatching)) && eoas == EoaCount(Rows(allWatching))
    {
      allOut := [];
      contracts := 0;
      eoas := 0;
      ghost var t := Rows(allWatching);
      var i := 0;
      while i < |allWatching|
        invariant 0 <= i <= |allWatching|
        invariant allOut == Blocks(prefix, t[..i])
        invariant contracts == ContractCount(t[..i]) && eoas == EoaCount(t[..i])
      {
        var v := allWatching[i];
        RowsAt(allWatching, i);
        assert t[..i + 1] == t[..i] + [v.Value()];
        BlocksSnoc(prefix, t[..i], v.Value());
        CountsSnoc(t[..i], v.Value());
        var lines := RenderRecord(v);
        allOut := allOut + lines;
        if v.isContract {
          contracts := contracts + 1;
        } else {
          eoas := eoas + 1;
        }
        i := i + 1;
      }
      assert t[..|allWatching|] == t;
    }

    /**
     * `MetricsHttp`: renders the table, counting contracts and externally owned
     * accounts on the way, and returns the body it writes (the lines joined by
     * newlines, plus a final newline). It changes nothing.
     */
    method MetricsHttp() returns (body: string)
      ensures body == Join(Exposition(prefix, Rows(allWatching), loadSeconds, totalLoaded), "\n") + "\n"
    {
      var allOut, contracts, eoas := RenderTable();
      ghost var blocks := allOut;
      var contractsLine := Total(prefix, "eth_contract_addresses_total", Decimal(contracts));
      var eoaLine := Total(prefix, "eth_eoa_addresses_total", Decimal(eoas));
      var loadLine := Total(prefix, "eth_load_seconds", loadSeconds);
      var loadedLine := Total(prefix, "eth_loaded_addresses", Decimal(totalLoaded));
      var totalLine := Total(prefix, "eth_total_addresses", Decimal(|allWatching|));
      allOut := allOut + [contractsLine];
      allOut := allOut + [eoaLine];
      allOut := allOut + [loadLine];
      allOut := allOut + [loadedLine];
      allOut := allOut + [totalLine];
      AppendFive(blocks, contractsLine, eoaLine, loadLine, loadedLine, totalLine);
      ghost var e := Exposition(prefix, Rows(allWatching), loadSeconds, totalLoaded);
      assert allOut == e;
      body := Join(allOut, "\n") + "\n";
    }
  }
}
