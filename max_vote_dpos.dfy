/**
 * The max-vote delegated-proof-of-stake policy of the older top-level crate
 * (`src/consensus/dpos.rs`): the delegate with the most votes is selected,
 * and there is no rotation.
 */
module MaxVoteDpos {
  import opened Words
  import opened Outcomes
  import opened Delegates
  import opened LegacyErrors

  /** The id this crate's `vote` reports for every unknown delegate, whatever was asked for. */
  const REPORTED_MISSING_ID: U64 := 42

  /**
   * `max_by_key(|d| d.votes)`: the position of a delegate with the most
   * votes; among equals, the last one, as `Iterator::max_by_key` returns the
   * last maximal element.
   */
  function LastMaxIndex(ds: seq<Delegate>): (k: nat)
    requires ds != []
    ensures k < |ds|
    ensures forall j :: 0 <= j < |ds| ==> ds[j].votes <= ds[k].votes
    ensures forall j :: k < j < |ds| ==> ds[j].votes < ds[k].votes
    decreases |ds|
  {
    if |ds| == 1 then 0
    else
      var k := LastMaxIndex(ds[..|ds| - 1]);
      if ds[|ds| - 1].votes >= ds[k].votes then |ds| - 1 else k
  }

  /** `DPoS` of the older crate: the registry only. */
  class DPoS {
    var delegates: seq<Delegate>

    /** `DPoS::new`: the given registry. */
    constructor New(delegates: seq<Delegate>)
      ensures this.delegates == delegates
    {
      this.delegates := delegates;
    }

    /**
     * `vote`: credits the first delegate with the id; when there is none,
     * fails with id 42 and changes nothing.
     */
    method Vote(id: U64, votes: U64) returns (r: Result<(), AppError>)
      requires CreditFits(delegates, id, votes)
      modifies this`delegates
      ensures FindDelegate(old(delegates), id).None? ==>
                r == Err(DelegateNotFound(REPORTED_MISSING_ID)) && delegates == old(delegates)
      ensures FindDelegate(old(delegates), id).Some? ==>
                r == Ok(()) && delegates == Credited(old(delegates), FindDelegate(old(delegates), id).value, votes)
    {
      var k := Locate(delegates, id);
      match k
      case Some(i) =>
        delegates := Credited(delegates, i, votes);
        r := Ok(());
      case None =>
        r := Err(DelegateNotFound(REPORTED_MISSING_ID));
    }

    /**
     * `select_delegate`: nothing for an empty registry; otherwise a delegate
     * with at least as many votes as every other, the last such one. It only
     * reads the registry.
     */
    function SelectDelegate(): (r: Option<Delegate>)
      reads this`delegates
      ensures r.None? <==> delegates == []
      ensures r.Some? ==>
                (exists k :: 0 <= k < |delegates| && delegates[k] == r.value &&
                  (forall j :: 0 <= j < |delegates| ==> delegates[j].votes <= r.value.votes) &&
                  (forall j :: k < j < |delegates| ==> delegates[j].votes < r.value.votes))
    {
      if delegates == [] then None else Some(delegates[LastMaxIndex(delegates)])
    }
  }

  /**
   * The vote scenario of the demo entry point (`src/main.rs`): delegates 1, 2
   * and 3 registered with no votes, then voted for with 100, 200 and 120
   * votes; delegate 2 is selected.
   */
  method DemoElection() returns (selected: Option<Delegate>)
    ensures selected == Some(Delegate(2, "Bob", 200))
  {
    var dpos := new DPoS.New([NewDelegate(1, "Alice"), NewDelegate(2, "Bob"), NewDelegate(3, "Charlie")]);
    var _ := dpos.Vote(1, 100);
    var _ := dpos.Vote(2, 200);
    var _ := dpos.Vote(3, 120);
    selected := dpos.SelectDelegate();
  }
}
