/**
 * The exposition text `MetricsHttp` serves: seven labelled lines per record in
 * table order, then five aggregate lines.
 */
module Metrics {
  import opened Strings
  import opened Watch
  import opened Seqs

  /** One per-address line: `<prefix><metric>{name="<name>",address="<address>"} <value>`. */
  function Labelled(prefix: string, metric: string, name: string, address: string, value: string): string {
    prefix + metric + "{name=\"" + name + "\",address=\"" + address + "\"} " + value
  }

  /** `line` ends with a space and then `value`. */
  predicate EndsWithValue(line: string, value: string) {
    |line| > |value| && line[|line| - |value| - 1] == ' ' && line[|line| - |value|..] == value
  }

  /** A labelled line ends with its value, after the space that separates it. */
  lemma LabelledEndsWith(prefix: string, metric: string, name: string, address: string, value: string)
    ensures EndsWithValue(Labelled(prefix, metric, name, address, value), value)
  {
    var head := prefix + metric + "{name=\"" + name + "\",address=\"" + address + "\"} ";
    assert Labelled(prefix, metric, name, address, value) == head + value;
    assert head[|head| - 1] == ' ';
    assert (head + value)[|head|..] == value;
  }

  /** One aggregate line: `<prefix><metric> <value>`. */
  function Total(prefix: string, metric: string, value: string): string {
    prefix + metric + " " + value
  }

  /** An empty balance (left by a failed read) is rendered as "0". */
  function OrZero(balance: string): (s: string)
    ensures s != []
    ensures balance == [] ==> s == "0"
    ensures balance != [] ==> s == balance
  {
    if balance == "" then "0" else balance
  }

  /** The seven lines of one record, in their fixed order. */
  function Block(prefix: string, r: Record): seq<string> {
    [ Labelled(prefix, "eth_balance", r.name, r.address, OrZero(r.balance)),
      Labelled(prefix, "eth_balance_pending", r.name, r.address, OrZero(r.balancePending)),
      Labelled(prefix, "eth_nonce", r.name, r.address, Decimal(r.nonce)),
      Labelled(prefix, "eth_nonce_pending", r.name, r.address, Decimal(r.noncePending)),
      Labelled(prefix, "eth_is_contract", r.name, r.address, if r.isContract then "1" else "0"),
      Labelled(prefix, "eth_code_size_bytes", r.name, r.address, Decimal(r.codeSize)),
      Labelled(prefix, "eth_last_updated_unixtime", r.name, r.address, Decimal(r.lastUpdated)) ]
  }

  /** The block of each record, in table order. */
  function BlockSeq(prefix: string, t: seq<Record>): (b: seq<seq<string>>)
    ensures |b| == |t| && forall j :: 0 <= j < |t| ==> |b[j]| == 7
  {
    seq(|t|, j requires 0 <= j < |t| => Block(prefix, t[j]))
  }

  /** The blocks of all records, in table order. */
  function Blocks(prefix: string, t: seq<Record>): seq<string> {
    Flatten(BlockSeq(prefix, t))
  }

  /** Rendering one more record appends its block. */
  lemma BlocksSnoc(prefix: string, t: seq<Record>, r: Record)
    ensures Blocks(prefix, t + [r]) == Blocks(prefix, t) + Block(prefix, r)
  {
    var c := BlockSeq(prefix, t + [r]);
    assert c[..|t|] == BlockSeq(prefix, t);
  }

  /** How many records are contracts. */
  function ContractCount(t: seq<Record>): nat {
    if t == [] then 0 else ContractCount(t[..|t| - 1]) + (if t[|t| - 1].isContract then 1 else 0)
  }

  /** How many records are externally owned accounts. */
  function EoaCount(t: seq<Record>): nat {
    if t == [] then 0 else EoaCount(t[..|t| - 1]) + (if t[|t| - 1].isContract then 0 else 1)
  }

  /** Counting one more record adds it to exactly one of the two totals. */
  lemma CountsSnoc(t: seq<Record>, r: Record)
    ensures ContractCount(t + [r]) == ContractCount(t) + (if r.isContract then 1 else 0)
    ensures EoaCount(t + [r]) == EoaCount(t) + (if r.isContract then 0 else 1)
  {
    assert (t + [r])[..|t|] == t;
  }

  /** The five aggregate lines. */
  function Totals(prefix: string, contracts: nat, eoas: nat, loadSeconds: string, loaded: int, total: nat): seq<string> {
    [ Total(prefix, "eth_contract_addresses_total", Decimal(contracts)),
      Total(prefix, "eth_eoa_addresses_total", Decimal(eoas)),
      Total(prefix, "eth_load_seconds", loadSeconds),
      Total(prefix, "eth_loaded_addresses", Decimal(loaded)),
      Total(prefix, "eth_total_addresses", Decimal(total)) ]
  }

  /**
   * All lines of one scrape of table `t`; `loadSeconds` is the two-decimal text
   * of the last sweep's duration and `loaded` the count that sweep recorded.
   */
  function Exposition(prefix: string, t: seq<Record>, loadSeconds: string, loaded: int): seq<string> {
    Blocks(prefix, t) + Totals(prefix, ContractCount(t), EoaCount(t), loadSeconds, loaded, |t|)
  }

  /** Record `i` owns lines `7*i` to `7*i + 6` of the blocks, and there are no others. */
  lemma BlocksLayout(prefix: string, t: seq<Record>, i: nat)
    requires i < |t|
    ensures |Blocks(prefix, t)| == 7 * |t|
    ensures Blocks(prefix, t)[7 * i .. 7 * i + 7] == Block(prefix, t[i])
  {
    FlattenLayout(BlockSeq(prefix, t), i);
  }

  /** Every record is counted once, as a contract or as an externally owned account. */
  lemma {:induction false} CountsPartition(t: seq<Record>)
    ensures ContractCount(t) + EoaCount(t) == |t|
  {
    if t != [] {
      CountsPartition(t[..|t| - 1]);
    }
  }

  /** The contract total counts exactly the records flagged as contracts. */
  lemma {:induction false} ContractCountZero(t: seq<Record>)
    ensures ContractCount(t) == 0 <==> forall i :: 0 <= i < |t| ==> !t[i].isContract
    ensures EoaCount(t) == 0 <==> forall i :: 0 <= i < |t| ==> t[i].isContract
  {
    if t != [] {
      var init := t[..|t| - 1];
      ContractCountZero(init);
      assert forall i :: 0 <= i < |init| ==> init[i] == t[i];
    }
  }

  /**
   * The shape of a scrape: 7 lines per record and 5 aggregates; line `7*i + k`
   * is line `k` of record `i`'s block; then the aggregates, whose contract and
   * EOA totals add up to the record count carried on the last line.
   */
  lemma ExpositionShape(prefix: string, t: seq<Record>, loadSeconds: string, loaded: int)
    ensures |Exposition(prefix, t, loadSeconds, loaded)| == 7 * |t| + 5
    ensures forall i, k :: 0 <= i < |t| && 0 <= k < 7 ==>
      Exposition(prefix, t, loadSeconds, loaded)[7 * i + k] == Block(prefix, t[i])[k]
    ensures Exposition(prefix, t, loadSeconds, loaded)[7 * |t| ..] ==
      Totals(prefix, ContractCount(t), EoaCount(t), loadSeconds, loaded, |t|)
    ensures ContractCount(t) + EoaCount(t) == |t|
    ensures Exposition(prefix, t, loadSeconds, loaded)[7 * |t| + 4] ==
      Total(prefix, "eth_total_addresses", Decimal(|t|))
  {
    var e := Exposition(prefix, t, loadSeconds, loaded);
    if t == [] {
      assert |Blocks(prefix, t)| == 0;
    } else {
      BlocksLayout(prefix, t, 0);
    }
    forall i, k | 0 <= i < |t| && 0 <= k < 7 ensures e[7 * i + k] == Block(prefix, t[i])[k] {
      BlocksLayout(prefix, t, i);
      assert e[7 * i + k] == Blocks(prefix, t)[7 * i .. 7 * i + 7][k];
    }
    CountsPartition(t);
  }

  /** A record's is_contract line ends in " 1" or " 0", and its balance lines in a non-empty value. */
  lemma BlockValues(prefix: string, r: Record)
    ensures EndsWithValue(Block(prefix, r)[4], if r.isContract then "1" else "0")
    ensures EndsWithValue(Block(prefix, r)[0], OrZero(r.balance))
    ensures EndsWithValue(Block(prefix, r)[1], OrZero(r.balancePending))
  {
    LabelledEndsWith(prefix, "eth_is_contract", r.name, r.address, if r.isContract then "1" else "0");
    LabelledEndsWith(prefix, "eth_balance", r.name, r.address, OrZero(r.balance));
    LabelledEndsWith(prefix, "eth_balance_pending", r.name, r.address, OrZero(r.balancePending));
  }

  /**
   * What a scrape says about record `i`: its is_contract line ends in " 1"
   * when the record is a contract and in " 0" otherwise, and each balance
   * line ends in a space and a non-empty value, the stored text or "0".
   */
  lemma ExpositionRecordLines(prefix: string, t: seq<Record>, loadSeconds: string, loaded: int, i: nat)
    requires i < |t|
    ensures |Exposition(prefix, t, loadSeconds, loaded)| == 7 * |t| + 5
    ensures EndsWithValue(Exposition(prefix, t, loadSeconds, loaded)[7 * i + 4], if t[i].isContract then "1" else "0")
    ensures EndsWithValue(Exposition(prefix, t, loadSeconds, loaded)[7 * i], OrZero(t[i].balance))
    ensures EndsWithValue(Exposition(prefix, t, loadSeconds, loaded)[7 * i + 1], OrZero(t[i].balancePending))
  {
    ExpositionShape(prefix, t, loadSeconds, loaded);
    var e := Exposition(prefix, t, loadSeconds, loaded);
    var b := Block(prefix, t[i]);
    BlockValues(prefix, t[i]);
    assert e[7 * i + 4] == b[4] && e[7 * i] == b[0] && e[7 * i + 1] == b[1];
  }
}
