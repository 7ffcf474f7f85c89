/**
  Probing an ordered list of candidate paths against the set of files that
  exist, stopping at the first hit (the `foreach` over the candidates with its
  `File.Exists` test).
 */
module Probing {
  import opened Wrappers

  /** `i` is the position of the first candidate that exists. */
  ghost predicate IsFirstExisting(candidates: seq<string>, existing: set<string>, i: int) {
    && 0 <= i < |candidates|
    && candidates[i] in existing
    && forall j :: 0 <= j < i ==> candidates[j] !in existing
  }

  /** True when none of the candidates exists. */
  predicate NoneExists(candidates: seq<string>, existing: set<string>) {
    forall j :: 0 <= j < |candidates| ==> candidates[j] !in existing
  }

  /** At most one position can be the first existing one. */
  lemma FirstExistingIsUnique(candidates: seq<string>, existing: set<string>, i: int, i': int)
    requires IsFirstExisting(candidates, existing, i)
    requires IsFirstExisting(candidates, existing, i')
    ensures i == i'
  {
  }

  /** The position of the first candidate that exists, if any. */
  function FirstExisting(candidates: seq<string>, existing: set<string>): (r: Option<nat>)
    ensures r.Some? ==> IsFirstExisting(candidates, existing, r.value)
    ensures r.None? ==> NoneExists(candidates, existing)
    decreases |candidates|
  {
    if |candidates| == 0 then None
    else if candidates[0] in existing then Some(0)
    else
      match FirstExisting(candidates[1..], existing)
      case None => None
      case Some(i) => Some(i + 1)
  }

  /**
    The `foreach` loop: test the candidates in order and return the first that
    exists, or nothing once every candidate has failed.
   */
  method Probe(candidates: seq<string>, existing: set<string>) returns (found: Option<string>)
    ensures found.Some? ==> exists i :: IsFirstExisting(candidates, existing, i) && found.value == candidates[i]
    ensures found.None? ==> NoneExists(candidates, existing)
    ensures found.Some? <==> FirstExisting(candidates, existing).Some?
    ensures found.Some? ==> found.value == candidates[FirstExisting(candidates, existing).value]
  {
    var i := 0;
    while i < |candidates|
      invariant 0 <= i <= |candidates|
      invariant forall j :: 0 <= j < i ==> candidates[j] !in existing
    {
      if candidates[i] in existing {
        assert IsFirstExisting(candidates, existing, i);
        var r := FirstExisting(candidates, existing);
        assert r.Some?;
        FirstExistingIsUnique(candidates, existing, i, r.value);
        return Some(candidates[i]);
      }
      i := i + 1;
    }
    return None;
  }

  /**
    Once candidate `k` exists, the result depends only on the candidates up to
    `k`: files at later candidates may come and go without changing it.
   */
  lemma FirstExistingIgnoresLaterCandidates(candidates: seq<string>, existing: set<string>, existing': set<string>, k: nat)
    requires k < |candidates| && candidates[k] in existing
    requires forall j :: 0 <= j <= k ==> (candidates[j] in existing <==> candidates[j] in existing')
    ensures FirstExisting(candidates, existing) == FirstExisting(candidates, existing')
  {
    var r := FirstExisting(candidates, existing);
    var r' := FirstExisting(candidates, existing');
    assert r.Some? && r.value <= k;
    assert r'.Some? && r'.value <= k;
    assert IsFirstExisting(candidates, existing', r.value);
    FirstExistingIsUnique(candidates, existing', r.value, r'.value);
  }

  /** Only the candidates themselves matter, not other files. */
  lemma FirstExistingDependsOnlyOnCandidates(candidates: seq<string>, existing: set<string>, existing': set<string>)
    requires forall j :: 0 <= j < |candidates| ==> (candidates[j] in existing <==> candidates[j] in existing')
    ensures FirstExisting(candidates, existing) == FirstExisting(candidates, existing')
  {
    var r := FirstExisting(candidates, existing);
    if r.Some? {
      FirstExistingIgnoresLaterCandidates(candidates, existing, existing', r.value);
    } else {
      assert NoneExists(candidates, existing');
    }
  }

  /**
    Adding files never loses a hit and can only move it to an earlier
    candidate.
   */
  lemma FirstExistingMonotone(candidates: seq<string>, existing: set<string>, existing': set<string>)
    requires existing <= existing'
    ensures FirstExisting(candidates, existing).Some? ==>
      && FirstExisting(candidates, existing').Some?
      && FirstExisting(candidates, existing').value <= FirstExisting(candidates, existing).value
  {
    var r := FirstExisting(candidates, existing);
    if r.Some? {
      assert candidates[r.value] in existing';
    }
  }
}
