/**
 * The `Delegate` record, which both consensus drafts define identically, and
 * the `iter_mut().find` lookup and vote credit that both `vote` methods share.
 */
module Delegates {
  import opened Words
  import opened Outcomes

  datatype Delegate = Delegate(id: U64, name: string, votes: U64)

  /** `Delegate::new`: a delegate with no votes yet. */
  function NewDelegate(id: U64, name: string): (d: Delegate)
    ensures d.id == id && d.name == name && d.votes == 0
  {
    Delegate(id, name, 0)
  }

  /** `find(|d| d.id == id)`: the position of the first delegate with that id. */
  function FindDelegate(ds: seq<Delegate>, id: U64): (r: Option<nat>)
    ensures r.None? <==> forall j :: 0 <= j < |ds| ==> ds[j].id != id
    ensures r.Some? ==> r.value < |ds| && ds[r.value].id == id
    ensures r.Some? ==> forall j :: 0 <= j < r.value ==> ds[j].id != id
    decreases |ds|
  {
    if ds == [] then None
    else if ds[0].id == id then Some(0)
    else
      match FindDelegate(ds[1..], id)
      case None => None
      case Some(k) => Some(k + 1)
  }

  /** The scan of `iter_mut().find`: walks the registry front to back and stops at the first match. */
  method Locate(ds: seq<Delegate>, id: U64) returns (r: Option<nat>)
    ensures r == FindDelegate(ds, id)
  {
    var i := 0;
    while i < |ds|
      invariant 0 <= i <= |ds|
      invariant forall j :: 0 <= j < i ==> ds[j].id != id
    {
      if ds[i].id == id {
        return Some(i);
      }
      i := i + 1;
    }
    return None;
  }

  /**
   * `delegate.votes += votes` does not overflow `u64` on the delegate that
   * `vote` credits (the source panics on overflow in a debug build).
   */
  predicate CreditFits(ds: seq<Delegate>, id: U64, votes: U64) {
    var k := FindDelegate(ds, id);
    k.Some? ==> ds[k.value].votes + votes <= MAX_U64
  }

  /** The registry after `votes` are added to delegate `k`, and to no other. */
  function Credited(ds: seq<Delegate>, k: nat, votes: U64): (r: seq<Delegate>)
    requires k < |ds| && ds[k].votes + votes <= MAX_U64
    ensures |r| == |ds|
    ensures r[k].id == ds[k].id && r[k].name == ds[k].name && r[k].votes == ds[k].votes + votes
    ensures forall j :: 0 <= j < |ds| && j != k ==> r[j] == ds[j]
  {
    ds[k := ds[k].(votes := ds[k].votes + votes)]
  }
}
