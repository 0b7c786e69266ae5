/**
 * What `OpenAddressesFromEnv` loads from a listing of `KEY=VALUE` strings:
 * the records it appends, as a function of the listing and the prefix.
 */
module Loader {
  import opened Options
  import opened Strings
  import opened Watch

  /** The prefix used when the caller passes an empty one. */
  const DefaultPrefix: string := "ethaddr_"

  function EffectivePrefix(envPrefix: string): (p: string)
    ensures p != []
    ensures envPrefix != [] ==> p == envPrefix
    ensures envPrefix == [] ==> p == "ethaddr_"
  {
    if envPrefix == "" then DefaultPrefix else envPrefix
  }

  /**
   * The record one listing entry yields under prefix `p`, or None when the
   * entry is skipped: it has no `=`, its key does not start with `p` (ignoring
   * case), or its trimmed value is not a hex address.
   */
  function Candidate(env: string, p: string): Option<Record> {
    match SplitFirst(env, '=')
    case None => None
    case Some((key, value)) =>
      var val := TrimSpace(value);
      if !HasPrefixFold(key, p) then None
      else if IsHexAddress(val) then Some(Initial(key[|p|..], val))
      else None
  }

  /** The records loaded from `environ`, in listing order. */
  function Entries(environ: seq<string>, p: string): seq<Record> {
    if environ == [] then []
    else
      var last := Candidate(environ[|environ| - 1], p);
      Entries(environ[..|environ| - 1], p) + (if last.Some? then [last.value] else [])
  }

  /**
   * The body of the loader's loop for one entry `env`: split at the first
   * `=`, trim the value, test the key against the prefix ignoring case, and
   * test the value as a hex address; the name and address of the record to
   * append, or None when the entry is skipped.
   */
  method ScanEntry(env: string, p: string, lowerPrefix: string) returns (entry: Option<(string, string)>)
    requires lowerPrefix == ToLower(p)
    ensures entry.Some? <==> Candidate(env, p).Some?
    ensures entry.Some? ==> Candidate(env, p).value == Initial(entry.value.0, entry.value.1)
    ensures entry.Some? ==> IsHexAddress(entry.value.1)
  {
    var parts := SplitFirst(env, '=');
    if parts.None? {
      return None;
    }
    var key := parts.value.0;
    var val := TrimSpace(parts.value.1);
    HasPrefixFoldLower(key, p);
    if !(lowerPrefix <= ToLower(key)) {
      return None;
    }
    var name := key[|p|..];
    if IsHexAddress(val) {
      entry := Some((name, val));
    } else {
      entry := None;
    }
  }

  /**
   * An entry `key=value` with `key` free of `=` is kept exactly when the key
   * starts with the prefix (ignoring case) and the trimmed value is a hex
   * address; the record is named by the rest of the key, in its own case, and
   * its address is the trimmed value, which may itself contain `=`.
   */
  lemma CandidateOfEntry(key: string, value: string, p: string)
    requires '=' !in key
    ensures Candidate(key + "=" + value, p).Some? <==>
      HasPrefixFold(key, p) && IsHexAddress(TrimSpace(value))
    ensures Candidate(key + "=" + value, p).Some? ==>
      |p| <= |key| && Candidate(key + "=" + value, p).value == Initial(key[|p|..], TrimSpace(value))
  {
    SplitFirstAt(key, value, '=');
  }

  /** Loading one more entry appends its candidate, if any. */
  lemma EntriesSnoc(environ: seq<string>, i: nat, p: string)
    requires i < |environ|
    ensures Entries(environ[..i + 1], p) ==
      Entries(environ[..i], p) + (if Candidate(environ[i], p).Some? then [Candidate(environ[i], p).value] else [])
  {
    assert environ[..i + 1][..i] == environ[..i];
  }

  /** One step of the loader's loop: the records so far, plus the scanned entry's record if any. */
  lemma EntriesStep(environ: seq<string>, i: nat, p: string, rows: seq<Record>, entry: Option<(string, string)>)
    requires i < |environ| && rows == Entries(environ[..i], p)
    requires entry.Some? <==> Candidate(environ[i], p).Some?
    requires entry.Some? ==> Candidate(environ[i], p).value == Initial(entry.value.0, entry.value.1)
    ensures Entries(environ[..i + 1], p) ==
      rows + (if entry.Some? then [Initial(entry.value.0, entry.value.1)] else [])
  {
    EntriesSnoc(environ, i, p);
  }

  /** An entry without `=` is skipped. */
  lemma CandidateNeedsSeparator(env: string, p: string)
    requires '=' !in env
    ensures Candidate(env, p) == None
  {
    SplitFirstSpec(env, '=');
  }

  /** Loading distributes over concatenation of listings: kept entries stay in listing order. */
  lemma {:induction false} EntriesAppend(a: seq<string>, b: seq<string>, p: string)
    ensures Entries(a + b, p) == Entries(a, p) + Entries(b, p)
  {
    if b == [] {
      assert a + b == a;
    } else {
      var b' := b[..|b| - 1];
      assert (a + b)[..|a + b| - 1] == a + b';
      assert (a + b)[|a + b| - 1] == b[|b| - 1];
      EntriesAppend(a, b', p);
    }
  }

  /** An entry of a listing that loads nothing was skipped. */
  lemma {:induction false} SkippedWhenNothingLoaded(environ: seq<string>, p: string, k: nat)
    requires k < |environ| && Entries(environ, p) == []
    ensures Candidate(environ[k], p).None?
  {
    var init := environ[..|environ| - 1];
    if k < |init| {
      assert environ[k] == init[k];
      SkippedWhenNothingLoaded(init, p, k);
    }
  }

  /** A listing whose entries are all skipped loads nothing. */
  lemma {:induction false} NothingLoadedWhenAllSkipped(environ: seq<string>, p: string)
    requires forall k :: 0 <= k < |environ| ==> Candidate(environ[k], p).None?
    ensures Entries(environ, p) == []
  {
    if environ != [] {
      var init := environ[..|environ| - 1];
      forall k | 0 <= k < |init| ensures Candidate(init[k], p).None? {
        assert init[k] == environ[k];
      }
      NothingLoadedWhenAllSkipped(init, p);
    }
  }

  /** Nothing is loaded exactly when every entry of the listing is skipped. */
  lemma EntriesEmpty(environ: seq<string>, p: string)
    ensures Entries(environ, p) == [] <==> forall k :: 0 <= k < |environ| ==> Candidate(environ[k], p).None?
  {
    if Entries(environ, p) == [] {
      forall k | 0 <= k < |environ| ensures Candidate(environ[k], p).None? {
        SkippedWhenNothingLoaded(environ, p, k);
      }
    } else if forall k :: 0 <= k < |environ| ==> Candidate(environ[k], p).None? {
      NothingLoadedWhenAllSkipped(environ, p);
    }
  }

  /** Every loaded record is fresh and well formed: balances "0", counters zero, a valid trimmed address. */
  lemma {:induction false} EntriesWellFormed(environ: seq<string>, p: string)
    ensures forall r :: r in Entries(environ, p) ==>
      WellFormed(r) && r == Initial(r.name, r.address) && TrimSpace(r.address) == r.address
    ensures |Entries(environ, p)| <= |environ|
  {
    if environ != [] {
      var init := environ[..|environ| - 1];
      EntriesWellFormed(init, p);
      var last := Candidate(environ[|environ| - 1], p);
      if last.Some? {
        HexAddressIsTrimmed(last.value.address);
      }
    }
  }
}
