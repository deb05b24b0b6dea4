/** The Hamiltonian: the field term and the stored-bond coupling of one site,
    the total energy as the sum over sites, and the local flip difference.
    Each computing loop of the source is a method proved equal to the
    specification function of the same quantity. */
module Energy {
  import opened Lattice

  /** Coupling `j` (positive favours aligned neighbours) and field `h`. */
  datatype Hamiltonian = Hamiltonian(j: real, h: real)

  /** The external-field part of a site's energy: `-h` for Up, `+h` for Down. */
  function FieldTerm(ham: Hamiltonian, s: Spin): real {
    match s
    case Up => -ham.h
    case Down => ham.h
  }

  /** The field term of the opposite spin is the negation of the site's
      own, which is how the one-pass difference loop starts its second
      candidate energy. */
  lemma FieldTermFlip(ham: Hamiltonian, s: Spin)
    ensures FieldTerm(ham, s.Flipped()) == -FieldTerm(ham, s)
    ensures FieldTerm(ham, s) == (if s == Up then -ham.h else ham.h)
  {
  }

  /** How many of the neighbour indices `nbrs` hold a site whose spin is `s`. */
  function Matches(nodes: seq<Node>, s: Spin, nbrs: seq<nat>): (m: nat)
    requires forall k | 0 <= k < |nbrs| :: nbrs[k] < |nodes|
    ensures m <= |nbrs|
    decreases |nbrs|
  {
    if nbrs == [] then 0
    else
      Matches(nodes, s, nbrs[..|nbrs| - 1])
      + (if nodes[nbrs[|nbrs| - 1]].state == s then 1 else 0)
  }

  /** The count and the coupling only read the spins at the indices given. */
  lemma {:induction false} MatchesLocal(ham: Hamiltonian, a: seq<Node>, b: seq<Node>, s: Spin, nbrs: seq<nat>)
    requires forall k | 0 <= k < |nbrs| :: nbrs[k] < |a| && nbrs[k] < |b|
    requires forall k | 0 <= k < |nbrs| :: a[nbrs[k]].state == b[nbrs[k]].state
    ensures Matches(a, s, nbrs) == Matches(b, s, nbrs)
    ensures Coupling(ham, a, s, nbrs) == Coupling(ham, b, s, nbrs)
    decreases |nbrs|
  {
    if nbrs != [] {
      MatchesLocal(ham, a, b, s, nbrs[..|nbrs| - 1]);
    }
  }

  /** The energy a site with spin `s` and stored neighbours `nbrs` would
      have: its field term, minus `j` per stored neighbour with spin `s`. */
  function SpinEnergy(ham: Hamiltonian, nodes: seq<Node>, s: Spin, nbrs: Neighbors): real
    requires nbrs[0] < |nodes| && nbrs[1] < |nodes|
  {
    FieldTerm(ham, s) - Coupling(ham, nodes, s, nbrs)
  }

  /** The coupling part of that energy: `j` once per neighbour in `nbrs`
      whose spin is `s`. */
  function Coupling(ham: Hamiltonian, nodes: seq<Node>, s: Spin, nbrs: seq<nat>): real
    requires forall k | 0 <= k < |nbrs| :: nbrs[k] < |nodes|
    decreases |nbrs|
  {
    if nbrs == [] then 0.0
    else
      Coupling(ham, nodes, s, nbrs[..|nbrs| - 1])
      + (if nodes[nbrs[|nbrs| - 1]].state == s then ham.j else 0.0)
  }

  /** Over a site's two stored neighbours, the coupling is `j` times the
      number of them that match. */
  lemma CouplingCounts(ham: Hamiltonian, nodes: seq<Node>, s: Spin, nbrs: Neighbors)
    requires nbrs[0] < |nodes| && nbrs[1] < |nodes|
    ensures Coupling(ham, nodes, s, nbrs) == ham.j * (Matches(nodes, s, nbrs) as real)
  {
    MatchesPair(ham, nodes, s, nbrs);
    var north, west := nodes[nbrs[0]].state == s, nodes[nbrs[1]].state == s;
    if north && west {
      assert ham.j * 2.0 == ham.j + ham.j;
    } else if north || west {
    } else {
    }
  }

  /** The energy of site `idx` as the lattice stands. */
  function SiteEnergy(ham: Hamiltonian, nodes: seq<Node>, idx: nat): real
    requires InBounds(nodes) && idx < |nodes|
  {
    SpinEnergy(ham, nodes, nodes[idx].state, nodes[idx].neighbor)
  }

  /** For `j >= 0` a site's energy lies between its field term minus `2j`
      (both stored neighbours match) and its field term (neither does). */
  lemma SiteEnergyBounds(ham: Hamiltonian, nodes: seq<Node>, idx: nat)
    requires InBounds(nodes) && idx < |nodes| && ham.j >= 0.0
    ensures var field := FieldTerm(ham, nodes[idx].state);
      field - 2.0 * ham.j <= SiteEnergy(ham, nodes, idx) <= field
  {
    var node := nodes[idx];
    CouplingCounts(ham, nodes, node.state, node.neighbor);
    var m := Matches(nodes, node.state, node.neighbor);
    if m == 0 {} else if m == 1 {} else {}
  }

  /** Sum of the site energies of the first `n` sites. */
  function PartialEnergy(ham: Hamiltonian, nodes: seq<Node>, n: nat): real
    requires InBounds(nodes) && n <= |nodes|
  {
    if n == 0 then 0.0 else PartialEnergy(ham, nodes, n - 1) + SiteEnergy(ham, nodes, n - 1)
  }

  /** The total energy: the sum of the site energies over every site. */
  function TotalEnergy(ham: Hamiltonian, nodes: seq<Node>): real
    requires InBounds(nodes)
  {
    PartialEnergy(ham, nodes, |nodes|)
  }

  /** The local flip difference of site `idx`: its energy with the current
      spin minus its energy with the opposite spin, both over its two stored
      neighbours only. */
  function FlipDiff(ham: Hamiltonian, nodes: seq<Node>, idx: nat): real
    requires InBounds(nodes) && idx < |nodes|
  {
    var node := nodes[idx];
    SpinEnergy(ham, nodes, node.state, node.neighbor)
      - SpinEnergy(ham, nodes, node.state.Flipped(), node.neighbor)
  }

  /** The flip difference in closed form: `2 * field + 2j * (1 - m)` for `m`
      stored neighbours sharing the site's spin. */
  lemma FlipDiffClosedForm(ham: Hamiltonian, nodes: seq<Node>, idx: nat)
    requires InBounds(nodes) && idx < |nodes|
    ensures FlipDiff(ham, nodes, idx)
         == 2.0 * FieldTerm(ham, nodes[idx].state)
            + 2.0 * ham.j * (1.0 - Matches(nodes, nodes[idx].state, nodes[idx].neighbor) as real)
  {
    var node := nodes[idx];
    var s, nbrs := node.state, node.neighbor;
    MatchesPair(ham, nodes, s, nbrs);
    MatchesPair(ham, nodes, s.Flipped(), nbrs);
    FieldTermFlip(ham, s);
    var north, west := nodes[nbrs[0]].state == s, nodes[nbrs[1]].state == s;
    if north && west {
    } else if north || west {
    } else {
    }
  }

  /** The flip difference reads nothing but site `idx` and the spins of its
      two stored neighbours. */
  lemma FlipDiffLocal(ham: Hamiltonian, a: seq<Node>, b: seq<Node>, idx: nat)
    requires InBounds(a) && InBounds(b) && idx < |a| && idx < |b|
    requires a[idx] == b[idx]
    requires forall k | 0 <= k < 2 :: a[a[idx].neighbor[k]].state == b[a[idx].neighbor[k]].state
    ensures FlipDiff(ham, a, idx) == FlipDiff(ham, b, idx)
  {
    MatchesLocal(ham, a, b, a[idx].state, a[idx].neighbor);
    MatchesLocal(ham, a, b, a[idx].state.Flipped(), a[idx].neighbor);
  }

  /** When site `idx` is not its own stored neighbour, the flip difference is
      the site's energy now minus its energy once only it is flipped. So a
      difference `<= 0` means flipping does not lower the site's energy. */
  lemma FlipDiffIsSiteChange(ham: Hamiltonian, nodes: seq<Node>, idx: nat)
    requires InBounds(nodes) && idx < |nodes|
    requires nodes[idx].neighbor[0] != idx && nodes[idx].neighbor[1] != idx
    ensures InBounds(FlipAt(nodes, idx))
    ensures FlipDiff(ham, nodes, idx)
         == SiteEnergy(ham, nodes, idx) - SiteEnergy(ham, FlipAt(nodes, idx), idx)
  {
    var flipped := FlipAt(nodes, idx);
    var nbrs := nodes[idx].neighbor;
    MatchesLocal(ham, nodes, flipped, nodes[idx].state.Flipped(), nbrs);
  }

  /** `Hamiltonian::calc_energy_node`: the field term, then `j` subtracted
      once per stored neighbour whose spin equals the site's own. */
  method CalcEnergyNode(ham: Hamiltonian, idx: nat, field: Field) returns (energy: real)
    requires InBounds(field.nodes) && idx < |field.nodes|
    ensures energy == SiteEnergy(ham, field.nodes, idx)
  {
    var node := field.nodes[idx];
    energy := match node.state
      case Up => -ham.h
      case Down => ham.h;
    for i := 0 to |node.neighbor|
      invariant energy == FieldTerm(ham, node.state)
                          - Coupling(ham, field.nodes, node.state, node.neighbor[..i])
    {
      var nidx := node.neighbor[i];
      assert node.neighbor[..i + 1][..i] == node.neighbor[..i];
      if node.state == field.nodes[nidx].state {
        energy := energy - ham.j;
      }
    }
    assert node.neighbor[..2] == node.neighbor;
  }

  /** `Hamiltonian::calc_energy`: the site energies accumulated over every
      site in index order. */
  method CalcEnergy(ham: Hamiltonian, field: Field) returns (energy: real)
    requires InBounds(field.nodes)
    ensures energy == TotalEnergy(ham, field.nodes)
  {
    energy := 0.0;
    for i := 0 to |field.nodes|
      invariant energy == PartialEnergy(ham, field.nodes, i)
    {
      var e := CalcEnergyNode(ham, i, field);
      energy := energy + e;
    }
  }

  /** `Hamiltonian::calc_energy_diff_node`: both candidate energies of site
      `idx` built in one pass over its stored neighbours, then
      `energy_prev - energy_next`. Having no `modifies` clause, it cannot
      change the field. */
  method CalcEnergyDiffNode(ham: Hamiltonian, idx: nat, field: Field) returns (diff: real)
    requires InBounds(field.nodes) && idx < |field.nodes|
    ensures diff == FlipDiff(ham, field.nodes, idx)
  {
    var nodes := field.nodes;
    var s := nodes[idx].state;
    var nbrs := nodes[idx].neighbor;
    var energyPrev := match s
      case Up => -ham.h
      case Down => ham.h;
    var energyNext := -energyPrev;
    for i := 0 to |nbrs|
      invariant energyPrev == FieldTerm(ham, s) - Coupling(ham, nodes, s, nbrs[..i])
      invariant energyNext == FieldTerm(ham, s.Flipped()) - Coupling(ham, nodes, s.Flipped(), nbrs[..i])
    {
      assert nbrs[..i + 1][..i] == nbrs[..i];
      if s == nodes[nbrs[i]].state {
        energyPrev := energyPrev - ham.j;
      } else {
        energyNext := energyNext - ham.j;
      }
    }
    assert nbrs[..2] == nbrs;
    diff := energyPrev - energyNext;
  }

  /** On an all-Up lattice with no field every site matches both stored
      neighbours, so the first `n` sites contribute `-2j` each. */
  lemma {:induction false} AllUpPartialEnergy(ham: Hamiltonian, nodes: seq<Node>, n: nat)
    requires InBounds(nodes) && n <= |nodes| && ham.h == 0.0
    requires forall i | 0 <= i < |nodes| :: nodes[i].state == Up
    ensures PartialEnergy(ham, nodes, n) == -2.0 * ham.j * (n as real)
  {
    if n > 0 {
      AllUpPartialEnergy(ham, nodes, n - 1);
      MatchesPair(ham, nodes, Up, nodes[n - 1].neighbor);
      assert -2.0 * ham.j * (n as real) == -2.0 * ham.j * ((n - 1) as real) - 2.0 * ham.j;
    }
  }

  /** A lattice as `Field::create` builds it, with `h = 0`, has total energy
      `-2j * width * height`: two stored bonds per site, each `-j`. */
  lemma AllUpEnergy(ham: Hamiltonian, width: nat, height: nat, nodes: seq<Node>)
    requires Toroidal(width, height, nodes) && ham.h == 0.0
    requires forall i | 0 <= i < |nodes| :: nodes[i].state == Up
    ensures InBounds(nodes)
    ensures TotalEnergy(ham, nodes) == -2.0 * ham.j * ((width * height) as real)
  {
    ToroidalInBounds(width, height, nodes);
    AllUpPartialEnergy(ham, nodes, |nodes|);
  }

  /** Over two neighbours, the count and the coupling are the sums of the
      two matches. */
  lemma MatchesPair(ham: Hamiltonian, nodes: seq<Node>, s: Spin, nbrs: Neighbors)
    requires nbrs[0] < |nodes| && nbrs[1] < |nodes|
    ensures Matches(nodes, s, nbrs)
         == (if nodes[nbrs[0]].state == s then 1 else 0) + (if nodes[nbrs[1]].state == s then 1 else 0)
    ensures Coupling(ham, nodes, s, nbrs)
         == (if nodes[nbrs[0]].state == s then ham.j else 0.0)
            + (if nodes[nbrs[1]].state == s then ham.j else 0.0)
  {
    var first := nbrs[..1];
    assert first[..0] == [] && first[0] == nbrs[0] && nbrs[..|nbrs| - 1] == first;
    assert Coupling(ham, nodes, s, first)
        == if nodes[nbrs[0]].state == s then ham.j else 0.0;
  }

  /** A site other than `i` that stores no bond to `i` keeps its energy
      when `i` is flipped. */
  lemma UntouchedSite(ham: Hamiltonian, nodes: seq<Node>, i: nat, k: nat)
    requires InBounds(nodes) && i < |nodes| && k < |nodes| && k != i
    requires nodes[k].neighbor[0] != i && nodes[k].neighbor[1] != i
    ensures SiteEnergy(ham, FlipAt(nodes, i), k) == SiteEnergy(ham, nodes, k)
  {
    MatchesLocal(ham, nodes, FlipAt(nodes, i), nodes[k].state, nodes[k].neighbor);
  }

  /** A site other than `i` storing exactly one bond to `i` loses `j` when
      that bond stops matching and gains `-j` when it starts matching. */
  lemma IncomingSiteChange(ham: Hamiltonian, nodes: seq<Node>, i: nat, k: nat, p: nat)
    requires InBounds(nodes) && i < |nodes| && k < |nodes| && k != i && p < 2
    requires nodes[k].neighbor[p] == i && nodes[k].neighbor[1 - p] != i
    ensures SiteEnergy(ham, FlipAt(nodes, i), k) - SiteEnergy(ham, nodes, k)
         == if nodes[k].state == nodes[i].state then ham.j else -ham.j
  {
    var flipped := FlipAt(nodes, i);
    MatchesPair(ham, nodes, nodes[k].state, nodes[k].neighbor);
    MatchesPair(ham, flipped, nodes[k].state, nodes[k].neighbor);
  }

  /** The partial sums of two lattices whose site energies differ at most
      at the three sites `x`, `y`, `z` differ by those three differences. */
  lemma {:induction false} PartialChange(ham: Hamiltonian, a: seq<Node>, b: seq<Node>, n: nat,
                                         x: nat, y: nat, z: nat)
    requires InBounds(a) && InBounds(b) && |a| == |b| && n <= |a|
    requires x != y && y != z && x != z && x < |a| && y < |a| && z < |a|
    requires forall k | 0 <= k < |a| && k != x && k != y && k != z ::
      SiteEnergy(ham, a, k) == SiteEnergy(ham, b, k)
    ensures PartialEnergy(ham, b, n) - PartialEnergy(ham, a, n)
         == (if x < n then SiteEnergy(ham, b, x) - SiteEnergy(ham, a, x) else 0.0)
          + (if y < n then SiteEnergy(ham, b, y) - SiteEnergy(ham, a, y) else 0.0)
          + (if z < n then SiteEnergy(ham, b, z) - SiteEnergy(ham, a, z) else 0.0)
    decreases n
  {
    if n > 0 {
      PartialChange(ham, a, b, n - 1, x, y, z);
    }
  }

  /** What the bond between site `k` and site `i` adds to the total energy
      when `i` flips: a matching bond (`-j`) stops matching (`+j`), a
      mismatched one (`0`) starts matching (`-j`). */
  function BondFlipChange(ham: Hamiltonian, nodes: seq<Node>, i: nat, k: nat): real
    requires i < |nodes| && k < |nodes|
  {
    if nodes[k].state == nodes[i].state then ham.j else -ham.j
  }

  /** The total-energy change of flipping site `i` when exactly two other
      sites, `south` and `east`, store a bond to it (one each) and `i`
      stores no bond to itself. */
  lemma FlipChangesTotalAt(ham: Hamiltonian, nodes: seq<Node>, i: nat, south: nat, east: nat)
    requires InBounds(nodes) && i < |nodes| && south < |nodes| && east < |nodes|
    requires south != i && east != i && south != east
    requires nodes[i].neighbor[0] != i && nodes[i].neighbor[1] != i
    requires nodes[south].neighbor[0] == i && nodes[south].neighbor[1] != i
    requires nodes[east].neighbor[1] == i && nodes[east].neighbor[0] != i
    requires forall k | 0 <= k < |nodes| && k != south && k != east ::
      nodes[k].neighbor[0] != i && nodes[k].neighbor[1] != i
    ensures TotalEnergy(ham, FlipAt(nodes, i)) - TotalEnergy(ham, nodes)
         == -FlipDiff(ham, nodes, i)
            + BondFlipChange(ham, nodes, i, south) + BondFlipChange(ham, nodes, i, east)
  {
    var flipped := FlipAt(nodes, i);
    forall k | 0 <= k < |nodes| && k != i && k != south && k != east
      ensures SiteEnergy(ham, nodes, k) == SiteEnergy(ham, flipped, k)
    {
      UntouchedSite(ham, nodes, i, k);
    }
    PartialChange(ham, nodes, flipped, |nodes|, i, south, east);
    FlipDiffIsSiteChange(ham, nodes, i);
    IncomingSiteChange(ham, nodes, i, south, 0);
    IncomingSiteChange(ham, nodes, i, east, 1);
  }

  /** Flipping one site of a lattice at least two wide and two high changes
      the total energy by minus its flip difference (its two stored bonds and
      its field term) plus the change on the two bonds stored by the sites
      south and east of it, which the flip difference does not see. */
  lemma FlipChangesTotal(ham: Hamiltonian, width: nat, height: nat, nodes: seq<Node>, i: nat)
    requires Toroidal(width, height, nodes) && i < |nodes| && width >= 2 && height >= 2
    ensures InBounds(nodes)
    ensures var inc := TorusIncoming(width, height, i);
      TotalEnergy(ham, FlipAt(nodes, i)) - TotalEnergy(ham, nodes)
        == -FlipDiff(ham, nodes, i)
           + BondFlipChange(ham, nodes, i, inc[0]) + BondFlipChange(ham, nodes, i, inc[1])
  {
    ToroidalInBounds(width, height, nodes);
    var inc := TorusIncoming(width, height, i);
    var south, east := inc[0], inc[1];
    IncomingBonds(width, height, nodes, i, south);
    IncomingBonds(width, height, nodes, i, east);
    NoSelfBond(width, height, nodes, i);
    DistinctNeighbours(width, height, nodes, south);
    forall k | 0 <= k < |nodes| && k != south && k != east
      ensures nodes[k].neighbor[0] != i && nodes[k].neighbor[1] != i
    {
      IncomingBonds(width, height, nodes, i, k);
    }
    FlipChangesTotalAt(ham, nodes, i, south, east);
  }

  /** The 2 x 2 lattice as created, with `j = 1` and `h = 0`: total energy
      `-8` (eight stored bonds, four pairs of sites each bonded twice by the
      wrap), and `-4` once site 0 is flipped, its four bonds now mismatched. */
  lemma TwoByTwoScenario(nodes: seq<Node>)
    requires Toroidal(2, 2, nodes)
    requires forall i | 0 <= i < |nodes| :: nodes[i].state == Up
    ensures InBounds(nodes)
    ensures TotalEnergy(Hamiltonian(1.0, 0.0), nodes) == -8.0
    ensures TotalEnergy(Hamiltonian(1.0, 0.0), FlipAt(nodes, 0)) == -4.0
  {
    var ham := Hamiltonian(1.0, 0.0);
    AllUpEnergy(ham, 2, 2, nodes);
    FlipChangesTotal(ham, 2, 2, nodes, 0);
    FlipDiffClosedForm(ham, nodes, 0);
    MatchesPair(ham, nodes, Up, nodes[0].neighbor);
  }
}
