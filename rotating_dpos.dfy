/**
 * The rotating delegated-proof-of-stake policy of the `blockchain` crate
 * (`consensus/dpos.rs`): delegates are ranked by votes, the ten best form
 * the round, and a counter walks through the round one selection at a time.
 */
module RotatingDpos {
  import opened Words
  import opened Outcomes
  import opened Delegates
  import opened AppErrors

  /** `top_delegates[..10]`: the size of a round. */
  const ROUND_SIZE: nat := 10

  /** Inserts `d` before the first delegate that does not have strictly more votes. */
  function InsertRanked(d: Delegate, s: seq<Delegate>): (r: seq<Delegate>)
    ensures |r| == |s| + 1
    decreases |s|
  {
    if s == [] || s[0].votes <= d.votes then [d] + s
    else [s[0]] + InsertRanked(d, s[1..])
  }

  /**
   * `sort_by_key(|d| Reverse(d.votes))`: a stable sort by votes, most first,
   * written as an insertion sort from the back of the registry.
   */
  function Rank(ds: seq<Delegate>): (r: seq<Delegate>)
    ensures |r| == |ds|
    decreases |ds|
  {
    if ds == [] then [] else InsertRanked(ds[0], Rank(ds[1..]))
  }

  lemma {:induction false} InsertPermutes(d: Delegate, s: seq<Delegate>)
    ensures multiset(InsertRanked(d, s)) == multiset(s) + multiset{d}
    decreases |s|
  {
    if s != [] && s[0].votes > d.votes {
      InsertPermutes(d, s[1..]);
      assert s == [s[0]] + s[1..];
    }
  }

  /** Rank rearranges the registry: it neither drops nor duplicates a delegate. */
  lemma {:induction false} RankPermutes(ds: seq<Delegate>)
    ensures multiset(Rank(ds)) == multiset(ds)
    decreases |ds|
  {
    if ds != [] {
      RankPermutes(ds[1..]);
      InsertPermutes(ds[0], Rank(ds[1..]));
      assert ds == [ds[0]] + ds[1..];
    }
  }

  predicate RankedByVotes(s: seq<Delegate>) {
    forall i, j :: 0 <= i < j < |s| ==> s[i].votes >= s[j].votes
  }

  /** The delegates with exactly `v` votes, in the order they appear. */
  function WithVotes(s: seq<Delegate>, v: nat): seq<Delegate>
    decreases |s|
  {
    if s == [] then [] else (if s[0].votes == v then [s[0]] else []) + WithVotes(s[1..], v)
  }

  /** No delegate in `s` has more than `v` votes. */
  predicate AtMost(s: seq<Delegate>, v: nat) {
    forall i :: 0 <= i < |s| ==> s[i].votes <= v
  }

  lemma {:induction false} InsertAtMost(d: Delegate, s: seq<Delegate>, v: nat)
    requires d.votes <= v && AtMost(s, v)
    ensures AtMost(InsertRanked(d, s), v)
    decreases |s|
  {
    if s != [] && s[0].votes > d.votes {
      InsertAtMost(d, s[1..], v);
    }
  }

  lemma {:induction false} InsertKeepsRanked(d: Delegate, s: seq<Delegate>)
    requires RankedByVotes(s)
    ensures RankedByVotes(InsertRanked(d, s))
    decreases |s|
  {
    if s != [] && s[0].votes > d.votes {
      var t := s[1..];
      InsertKeepsRanked(d, t);
      assert AtMost(t, s[0].votes) by {
        forall i | 0 <= i < |t|
          ensures t[i].votes <= s[0].votes
        {
          assert t[i] == s[i + 1];
        }
      }
      InsertAtMost(d, t, s[0].votes);
    }
  }

  /** Rank lists the delegates by votes, most first. */
  lemma {:induction false} RankIsRanked(ds: seq<Delegate>)
    ensures RankedByVotes(Rank(ds))
    decreases |ds|
  {
    if ds != [] {
      RankIsRanked(ds[1..]);
      InsertKeepsRanked(ds[0], Rank(ds[1..]));
    }
  }

  lemma WithVotesCons(x: Delegate, s: seq<Delegate>, v: nat)
    ensures WithVotes([x] + s, v) == (if x.votes == v then [x] else []) + WithVotes(s, v)
  {
    assert ([x] + s)[1..] == s;
  }

  /** The recursive step of `InsertWithVotes`: `d` moves past a delegate with more votes. */
  lemma InsertBehindWithVotes(d: Delegate, s: seq<Delegate>, v: nat)
    requires s != [] && s[0].votes > d.votes
    requires WithVotes(InsertRanked(d, s[1..]), v) == (if d.votes == v then [d] else []) + WithVotes(s[1..], v)
    ensures WithVotes(InsertRanked(d, s), v) == (if d.votes == v then [d] else []) + WithVotes(s, v)
  {
    var t := s[1..];
    var rt := InsertRanked(d, t);
    assert InsertRanked(d, s) == [s[0]] + rt;
    WithVotesCons(s[0], rt, v);
    assert [s[0]] + t == s;
    WithVotesCons(s[0], t, v);
  }

  lemma {:induction false} InsertWithVotes(d: Delegate, s: seq<Delegate>, v: nat)
    ensures WithVotes(InsertRanked(d, s), v) == (if d.votes == v then [d] else []) + WithVotes(s, v)
    decreases |s|
  {
    if s == [] || s[0].votes <= d.votes {
      WithVotesCons(d, s, v);
    } else {
      InsertWithVotes(d, s[1..], v);
      InsertBehindWithVotes(d, s, v);
    }
  }

  /**
   * The sort is stable: for every vote count, the delegates holding it keep
   * their registry order.
   */
  lemma {:induction false} RankIsStable(ds: seq<Delegate>, v: nat)
    ensures WithVotes(Rank(ds), v) == WithVotes(ds, v)
    decreases |ds|
  {
    if ds != [] {
      RankIsStable(ds[1..], v);
      InsertWithVotes(ds[0], Rank(ds[1..]), v);
      WithVotesCons(ds[0], ds[1..], v);
      assert [ds[0]] + ds[1..] == ds;
    }
  }

  /** `top`: the first ten ranked delegates, or all of them when there are fewer. */
  function Top(ds: seq<Delegate>): (t: seq<Delegate>)
    ensures |t| == if |ds| > ROUND_SIZE then ROUND_SIZE else |ds|
  {
    var r := Rank(ds);
    if |r| > ROUND_SIZE then r[..ROUND_SIZE] else r
  }

  lemma PrefixAboveRest(r: seq<Delegate>, m: nat, x: Delegate, y: Delegate)
    requires RankedByVotes(r) && m <= |r|
    requires x in r[..m] && y in r[m..]
    ensures x.votes >= y.votes
  {
    var i :| 0 <= i < m && r[..m][i] == x;
    var j :| 0 <= j < |r| - m && r[m..][j] == y;
    assert r[i] == x && r[m + j] == y;
  }

  /** No delegate left out of the round has more votes than one in it. */
  lemma TopDominates(ds: seq<Delegate>, x: Delegate, y: Delegate)
    requires x in Top(ds) && y in multiset(ds) - multiset(Top(ds))
    ensures x.votes >= y.votes
  {
    var r := Rank(ds);
    var m := |Top(ds)|;
    RankIsRanked(ds);
    RankPermutes(ds);
    assert Top(ds) == r[..m];
    assert r == r[..m] + r[m..];
    assert multiset(r) == multiset(r[..m]) + multiset(r[m..]);
    assert y in multiset(r[m..]);
    PrefixAboveRest(r, m, x, y);
  }

  /** The delegate chosen when the counter reads `c`: `top[c % top.len()]`. */
  function Pick(ds: seq<Delegate>, c: nat): (d: Delegate)
    requires ds != []
    ensures d in Top(ds)
  {
    var t := Top(ds);
    t[c % |t|]
  }

  /** The delegates chosen by `n` consecutive selections from counter `c`, votes held fixed. */
  function Schedule(ds: seq<Delegate>, c: nat, n: nat): (s: seq<Delegate>)
    requires ds != []
    ensures |s| == n
  {
    seq(n, k requires 0 <= k => Pick(ds, c + k))
  }

  lemma {:induction false} MulAtLeast(d: nat, m: nat)
    requires 1 <= d
    ensures m <= d * m
    decreases d
  {
    if 1 < d {
      MulAtLeast(d - 1, m);
      assert d * m == (d - 1) * m + m;
    }
  }

  /** Euclidean division is unique: a remainder in range fixes quotient and remainder. */
  lemma ModUnique(a: nat, m: nat, q: nat, r: nat)
    requires 0 < m && r < m && a == q * m + r
    ensures a % m == r
  {
    var q2, r2 := a / m, a % m;
    assert a == q2 * m + r2;
    if q2 < q {
      MulAtLeast(q - q2, m);
    } else if q < q2 {
      MulAtLeast(q2 - q, m);
    }
  }

  lemma ModStep(c: nat, k: nat, m: nat)
    requires 0 < m && k < m
    ensures (c + k) % m == if c % m + k < m then c % m + k else c % m + k - m
  {
    var q, r := c / m, c % m;
    assert c == q * m + r;
    if r + k < m {
      ModUnique(c + k, m, q, r + k);
    } else {
      assert (q + 1) * m == q * m + m;
      ModUnique(c + k, m, q + 1, r + k - m);
    }
  }

  lemma ModPeriod(c: nat, m: nat)
    requires 0 < m
    ensures (c + m) % m == c % m
  {
    var q := c / m;
    assert c == q * m + c % m;
    assert (q + 1) * m == q * m + m;
    ModUnique(c + m, m, q + 1, c % m);
  }

  /** Index `(c + k) % |t|` of `t` is index `k` of `t` rotated left by `c % |t|`. */
  lemma RotatedIndex<T>(t: seq<T>, c: nat, k: nat)
    requires k < |t|
    ensures t[(c + k) % |t|] == (t[c % |t|..] + t[..c % |t|])[k]
  {
    ModStep(c, k, |t|);
  }

  /** `|top|` selections later the counter points at the same delegate again. */
  lemma PickPeriodic(ds: seq<Delegate>, c: nat)
    requires ds != []
    ensures Pick(ds, c + |Top(ds)|) == Pick(ds, c)
  {
    ModPeriod(c, |Top(ds)|);
  }

  /**
   * A round: `|top|` consecutive selections return the round's delegates in
   * ranked order, starting where the counter points and wrapping round.
   */
  lemma Rotation(ds: seq<Delegate>, c: nat)
    requires ds != []
    ensures var t := Top(ds); Schedule(ds, c, |t|) == t[c % |t|..] + t[..c % |t|]
  {
    var t := Top(ds);
    var s := Schedule(ds, c, |t|);
    forall k | 0 <= k < |t|
      ensures s[k] == (t[c % |t|..] + t[..c % |t|])[k]
    {
      assert s[k] == Pick(ds, c + k) == t[(c + k) % |t|];
      RotatedIndex(t, c, k);
    }
  }

  /** Hence a round selects each of the round's delegates exactly once. */
  lemma RoundCoversTop(ds: seq<Delegate>, c: nat)
    requires ds != []
    ensures multiset(Schedule(ds, c, |Top(ds)|)) == multiset(Top(ds))
  {
    var t := Top(ds);
    var r := c % |t|;
    Rotation(ds, c);
    assert t == t[..r] + t[r..];
  }

  /** `DPoS`: the registry and the rotation counter. */
  class DPoS {
    var delegates: seq<Delegate>
    var currentDelegateIndex: Usize

    /** `DPoS::new`: the given registry, counter at 0. */
    constructor New(delegates: seq<Delegate>)
      ensures this.delegates == delegates && currentDelegateIndex == 0
    {
      this.delegates := delegates;
      currentDelegateIndex := 0;
    }

    /**
     * `vote`: credits the first delegate with the id; when there is none,
     * fails with that id and changes nothing.
     */
    method Vote(id: U64, votes: U64) returns (r: Result<(), AppError>)
      requires CreditFits(delegates, id, votes)
      modifies this`delegates
      ensures FindDelegate(old(delegates), id).None? ==>
                r == Err(DelegateNotFound(id)) && delegates == old(delegates)
      ensures FindDelegate(old(delegates), id).Some? ==>
                r == Ok(()) && delegates == Credited(old(delegates), FindDelegate(old(delegates), id).value, votes)
    {
      var k := Locate(delegates, id);
      match k
      case Some(i) =>
        delegates := Credited(delegates, i, votes);
        r := Ok(());
      case None =>
        r := Err(DelegateNotFound(id));
    }

    /**
     * `select_delegate`: fails on an empty registry without moving the
     * counter; otherwise returns `top[counter % |top|]` and advances the
     * counter by one, wrapping at `usize::MAX`. The registry is only read.
     */
    method SelectDelegate() returns (r: Result<Delegate, AppError>)
      modifies this`currentDelegateIndex
      ensures delegates == [] ==> r == Err(NoDelegates) && currentDelegateIndex == old(currentDelegateIndex)
      ensures delegates != [] ==>
                r == Ok(Pick(delegates, old(currentDelegateIndex))) &&
                currentDelegateIndex == WrappingInc(old(currentDelegateIndex))
    {
      if delegates == [] {
        return Err(NoDelegates);
      }
      var ranked := Rank(delegates);
      var top := if |ranked| > ROUND_SIZE then ranked[..ROUND_SIZE] else ranked;
      var idx := currentDelegateIndex % |top|;
      currentDelegateIndex := WrappingInc(currentDelegateIndex);
      r := Ok(top[idx]);
    }
  }
}
