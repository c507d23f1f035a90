/** Power of two choices: how evenly reserving selections spread over a fixed set of eligible nodes. */
module LoadBalance {
  import opened RegistrySpec
  import opened RegistryProofs
  import opened Wrappers

  /** One selection: its time, reservation id and lifetime, and the pair the sampler drew. */
  datatype Pick = Pick(now: int, rid: string, ttl: int, first: string, second: string)

  /** A selection that finds exactly these eligible nodes, reaps nothing and reserves under a fresh id. */
  ghost predicate Steady(config: Config, r: Registry, eligible: set<string>, p: Pick) {
    && Inv(r) && |eligible| >= 2
    && Expired(r, p.now) == {}
    && Eligible(config, r, p.now) == eligible
    && Sampled(eligible, p.first, p.second)
    && p.rid != "" && p.rid !in r.reservations
  }

  lemma NothingToReap(r: Registry, now: int)
    requires Valid(r) && Expired(r, now) == {}
    ensures Reap(r, now) == r
  {
    DropNone(r);
  }

  lemma SteadyIsOffered(config: Config, r: Registry, eligible: set<string>, p: Pick)
    requires Steady(config, r, eligible, p)
    ensures Offered(config, r, p.now, p.first, p.second)
    ensures eligible <= r.byId.Keys
    ensures Picked(config, r, p.now, p.first, p.second) == Some(Winner(r, eligible, p.first, p.second))
    ensures Select(config, r, p.now, p.rid, p.ttl, p.first, p.second)
            == Reserve(r, p.rid, r.byId[Winner(r, eligible, p.first, p.second)], Expiry(p.now, p.ttl))
  {
    NothingToReap(r, p.now);
  }

  /** A steady selection and its outcome. */
  ghost predicate Selects(config: Config, eligible: set<string>, r: Registry, p: Pick, r': Registry) {
    && Steady(config, r, eligible, p) && Offered(config, r, p.now, p.first, p.second)
    && r' == Select(config, r, p.now, p.rid, p.ttl, p.first, p.second)
  }

  /** A steady selection is followed by another at the same time under any new id: steady runs go on for ever. */
  lemma SelectionStaysSteady(config: Config, eligible: set<string>, r: Registry, p: Pick, r': Registry, q: Pick)
    requires Selects(config, eligible, r, p, r') && p.ttl > 0
    requires q.now == p.now && q.rid != "" && q.rid !in r'.reservations && Sampled(eligible, q.first, q.second)
    ensures Steady(config, r', eligible, q)
  {
    SelectKeeps(config, r, p.now, p.rid, p.ttl, p.first, p.second);
    SelectSame(config, r, p.now, p.rid, p.ttl, p.first, p.second);
    SelectReservations(config, r, p.now, p.rid, p.ttl, p.first, p.second);
    SameEligible(config, r, r', p.now);
    assert Expiry(p.now, p.ttl) > p.now;
  }

  lemma SameEligible(config: Config, r: Registry, r': Registry, now: int)
    requires Valid(r) && Valid(r') && SameButLoad(r, r')
    ensures Eligible(config, r', now) == Eligible(config, r, now)
  {
    forall k | k in r.byId
      ensures k in Eligible(config, r', now) <==> k in Eligible(config, r, now)
    {
      var h := r.byId[k];
      assert r'.nodes[h] == r.nodes[h].(activeUploads := r'.nodes[h].activeUploads);
    }
  }

  // ---------------------------------------------------------------- loads alone

  type Loads = map<string, nat>

  function Bump(loads: Loads, w: string): Loads
    requires w in loads
  {
    loads[w := loads[w] + 1]
  }

  /** A node carries at least two slots more than every other. */
  predicate LeadsByTwo(loads: Loads, x: string)
    requires x in loads
  {
    forall y <- loads :: y != x ==> loads[y] + 2 <= loads[x]
  }

  predicate Balanced(loads: Loads) {
    forall x {:trigger LeadsByTwo(loads, x)} | x in loads :: !LeadsByTwo(loads, x)
  }

  /** No two nodes together hold more than total slots. */
  predicate PairsWithin(loads: Loads, total: nat) {
    forall x <- loads, y <- loads :: x != y ==> loads[x] + loads[y] <= total
  }

  lemma BumpKeepsPairs(loads: Loads, w: string, total: nat)
    requires w in loads && PairsWithin(loads, total)
    ensures PairsWithin(Bump(loads, w), total + 1)
  {
  }

  /** One more slot on a node no more loaded than some other keeps both. */
  lemma BumpKeepsBalance(loads: Loads, w: string, other: string, total: nat)
    requires w in loads && other in loads && w != other && loads[w] <= loads[other]
    requires Balanced(loads) && PairsWithin(loads, total)
    ensures Balanced(Bump(loads, w)) && PairsWithin(Bump(loads, w), total + 1)
  {
    BumpKeepsPairs(loads, w, total);
    var more := Bump(loads, w);
    forall x | x in more
      ensures !LeadsByTwo(more, x)
    {
      if x == w {
        assert more[other] + 2 > more[w];
      } else {
        assert !LeadsByTwo(loads, x);
        var y :| y in loads && y != x && loads[y] + 2 > loads[x];
        assert more[y] + 2 > more[x];
      }
    }
  }

  // ---------------------------------------------------------------- runs of selections

  function LoadsOf(r: Registry, eligible: set<string>): (loads: Loads)
    requires Valid(r) && eligible <= r.byId.Keys
    ensures loads.Keys == eligible
  {
    map k | k in eligible :: Load(r, k)
  }

  /** The other id drawn. */
  function Other(w: string, first: string, second: string): string {
    if w == first then second else first
  }

  lemma WinnerIsLighter(r: Registry, eligible: set<string>, first: string, second: string)
    requires Valid(r) && Sampled(eligible, first, second) && eligible <= r.byId.Keys && |eligible| >= 2
    ensures var w := Winner(r, eligible, first, second);
            var other := Other(w, first, second);
            w in eligible && other in eligible && other != w && Load(r, w) <= Load(r, other)
  {
  }

  lemma ReserveBumps(r: Registry, eligible: set<string>, rid: string, w: string, expiresAt: int)
    requires Inv(r) && rid !in r.reservations && eligible <= r.byId.Keys && w in eligible
    ensures var r' := Reserve(r, rid, r.byId[w], expiresAt);
            r'.byId == r.byId && LoadsOf(r', eligible) == Bump(LoadsOf(r, eligible), w)
  {
    var r' := Reserve(r, rid, r.byId[w], expiresAt);
    forall j | j in eligible
      ensures Load(r', j) == Load(r, j) + if j == w then 1 else 0
    {
      ReserveLoad(r, rid, w, expiresAt, j);
    }
  }

  lemma ReserveLoad(r: Registry, rid: string, w: string, expiresAt: int, j: string)
    requires Inv(r) && rid !in r.reservations && w in r.byId && j in r.byId
    ensures var r' := Reserve(r, rid, r.byId[w], expiresAt);
            r'.byId == r.byId && Load(r', j) == Load(r, j) + if j == w then 1 else 0
  {
  }

  /** One selection adds one slot, to a node that carried no more than the other one drawn. */
  lemma SelectionBumps(config: Config, eligible: set<string>, r: Registry, p: Pick, r': Registry)
    requires Selects(config, eligible, r, p, r')
    ensures Valid(r) && Valid(r') && eligible <= r.byId.Keys && r'.byId == r.byId
    ensures var w := Winner(r, eligible, p.first, p.second);
            var other := Other(w, p.first, p.second);
            && other in eligible && other != w
            && LoadsOf(r, eligible)[w] <= LoadsOf(r, eligible)[other]
            && LoadsOf(r', eligible) == Bump(LoadsOf(r, eligible), w)
  {
    SteadyIsOffered(config, r, eligible, p);
    WinnerIsLighter(r, eligible, p.first, p.second);
    ReserveBumps(r, eligible, p.rid, Winner(r, eligible, p.first, p.second), Expiry(p.now, p.ttl));
  }

  /** The registries a sequence of selections goes through: time passes, and the sampler is arbitrary. */
  ghost predicate SteadyRun(config: Config, eligible: set<string>, states: seq<Registry>, picks: seq<Pick>) {
    && |states| == |picks| + 1
    && Valid(states[0]) && eligible <= states[0].byId.Keys && |eligible| >= 2
    && forall i :: 0 <= i < |picks| ==> Selects(config, eligible, states[i], picks[i], states[i + 1])
  }

  lemma {:induction false} RunKeepsBalance(config: Config, eligible: set<string>, states: seq<Registry>, picks: seq<Pick>,
                                           n: nat)
    requires SteadyRun(config, eligible, states, picks) && n <= |picks|
    requires Balanced(LoadsOf(states[0], eligible)) && PairsWithin(LoadsOf(states[0], eligible), 0)
    ensures Valid(states[n]) && eligible <= states[n].byId.Keys
    ensures Balanced(LoadsOf(states[n], eligible)) && PairsWithin(LoadsOf(states[n], eligible), n)
  {
    if n > 0 {
      var i := n - 1;
      RunKeepsBalance(config, eligible, states, picks, i);
      var r, p := states[i], picks[i];
      assert Selects(config, eligible, r, p, states[i + 1]);
      SelectionBumps(config, eligible, r, p, states[i + 1]);
      var w := Winner(r, eligible, p.first, p.second);
      BumpKeepsBalance(LoadsOf(r, eligible), w, Other(w, p.first, p.second), i);
    }
  }

  /**
   From zero load over at least two eligible nodes, after any number n of reserving selections and
   whatever pairs were drawn: every node is within one slot of another, so the most loaded leads the
   second by at most one, and no node holds more than half of the slots, rounded up.
   */
  lemma NoNodeLeadsByMoreThanOne(config: Config, eligible: set<string>, states: seq<Registry>, picks: seq<Pick>, n: nat,
                                 x: string)
    requires SteadyRun(config, eligible, states, picks) && n <= |picks| && x in eligible
    requires forall k <- eligible :: Load(states[0], k) == 0
    ensures Valid(states[n]) && eligible <= states[n].byId.Keys
    ensures exists y :: y in eligible && y != x && Load(states[n], x) <= Load(states[n], y) + 1
    ensures 2 * Load(states[n], x) <= n + 1
  {
    ZeroIsBalanced(LoadsOf(states[0], eligible));
    RunKeepsBalance(config, eligible, states, picks, n);
    var loads := LoadsOf(states[n], eligible);
    assert !LeadsByTwo(loads, x);
    var y :| y in loads && y != x && loads[y] + 2 > loads[x];
    assert loads[x] + loads[y] <= n;
    assert Load(states[n], x) == loads[x] && Load(states[n], y) == loads[y];
  }

  lemma ZeroIsBalanced(loads: Loads)
    requires |loads.Keys| >= 2 && forall k <- loads :: loads[k] == 0
    ensures Balanced(loads) && PairsWithin(loads, 0)
  {
    forall x | x in loads
      ensures !LeadsByTwo(loads, x)
    {
      assert loads.Keys != {x};
      var y :| y in loads && y != x;
      assert loads[y] + 2 > loads[x];
    }
  }
}
