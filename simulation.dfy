/** One Monte Carlo sweep (`step`): every site visited once, in index order,
    on the lattice as earlier visits of the same sweep left it. The random
    draws and the exponential are inputs: `draws[i]` is the uniform value
    drawn at site `i`, and `exp` stands for the floating-point exponential. */
module Simulation {
  import opened Lattice
  import opened Energy

  /** The flip test of `step`, with its comparisons as written: flip when
      the difference is `<= 0`, or else when the draw EXCEEDS
      `exp(-beta * difference)`. */
  predicate Accepts(denergy: real, beta: real, draw: real, exp: real -> real): (r: bool)
    ensures denergy <= 0.0 ==> r
    ensures denergy > 0.0 ==> (r <==> draw > exp(-1.0 * beta * denergy))
  {
    denergy <= 0.0 || draw > exp(-1.0 * beta * denergy)
  }

  /** The visit of site `i`: its flip difference on `nodes` decides whether
      only its spin is toggled. */
  function Visit(ham: Hamiltonian, beta: real, draws: seq<real>, exp: real -> real,
                 nodes: seq<Node>, i: nat): (r: seq<Node>)
    requires InBounds(nodes) && i < |nodes| && i < |draws|
    ensures SameShape(nodes, r) && InBounds(r)
    ensures forall k | 0 <= k < |nodes| && k != i :: r[k] == nodes[k]
  {
    var r := if Accepts(FlipDiff(ham, nodes, i), beta, draws[i], exp) then FlipAt(nodes, i) else nodes;
    SameShapeInBounds(nodes, r);
    r
  }

  /** The lattice after the sweep has visited sites `0 .. k-1`. */
  function Swept(ham: Hamiltonian, beta: real, draws: seq<real>, exp: real -> real,
                 nodes: seq<Node>, k: nat): (r: seq<Node>)
    requires InBounds(nodes) && k <= |nodes| && |draws| == |nodes|
    ensures SameShape(nodes, r) && InBounds(r)
    decreases k
  {
    if k == 0 then nodes
    else Visit(ham, beta, draws, exp, Swept(ham, beta, draws, exp, nodes, k - 1), k - 1)
  }

  /** Sites not yet visited are untouched. */
  lemma {:induction false} SweptAhead(ham: Hamiltonian, beta: real, draws: seq<real>, exp: real -> real,
                                      nodes: seq<Node>, k: nat, m: nat)
    requires InBounds(nodes) && k <= m < |nodes| && |draws| == |nodes|
    ensures Swept(ham, beta, draws, exp, nodes, k)[m] == nodes[m]
    decreases k
  {
    if k > 0 {
      SweptAhead(ham, beta, draws, exp, nodes, k - 1, m);
    }
  }

  /** A visited site keeps the spin its own visit gave it. */
  lemma {:induction false} SweptSettled(ham: Hamiltonian, beta: real, draws: seq<real>, exp: real -> real,
                                        nodes: seq<Node>, k: nat, m: nat)
    requires InBounds(nodes) && m < k <= |nodes| && |draws| == |nodes|
    ensures Swept(ham, beta, draws, exp, nodes, k)[m] == Swept(ham, beta, draws, exp, nodes, m + 1)[m]
    decreases k
  {
    if k > m + 1 {
      SweptSettled(ham, beta, draws, exp, nodes, k - 1, m);
      var before := Swept(ham, beta, draws, exp, nodes, k - 1);
      assert Swept(ham, beta, draws, exp, nodes, k) == Visit(ham, beta, draws, exp, before, k - 1);
    }
  }

  /** What site `m` ends the sweep with: its original spin, toggled exactly
      when the test accepts the difference computed on the lattice as the
      sweep stood on reaching `m`. In particular a difference `<= 0` always
      flips it. */
  lemma SweepDecision(ham: Hamiltonian, beta: real, draws: seq<real>, exp: real -> real,
                      nodes: seq<Node>, m: nat)
    requires InBounds(nodes) && m < |nodes| && |draws| == |nodes|
    ensures
      var before := Swept(ham, beta, draws, exp, nodes, m);
      Swept(ham, beta, draws, exp, nodes, |nodes|)[m].state
        == if Accepts(FlipDiff(ham, before, m), beta, draws[m], exp)
           then nodes[m].state.Flipped() else nodes[m].state
  {
    SweptSettled(ham, beta, draws, exp, nodes, |nodes|, m);
    SweptAhead(ham, beta, draws, exp, nodes, m, m);
  }

  /** The sweep is sequential, not synchronous: when site `m` is reached,
      every earlier site already holds its final spin and every later site
      still holds its original one. */
  lemma SweepIsSequential(ham: Hamiltonian, beta: real, draws: seq<real>, exp: real -> real,
                          nodes: seq<Node>, m: nat, n: nat)
    requires InBounds(nodes) && m < |nodes| && n < |nodes| && |draws| == |nodes|
    ensures n < m ==>
      Swept(ham, beta, draws, exp, nodes, m)[n] == Swept(ham, beta, draws, exp, nodes, |nodes|)[n]
    ensures m <= n ==> Swept(ham, beta, draws, exp, nodes, m)[n] == nodes[n]
  {
    if n < m {
      SweptSettled(ham, beta, draws, exp, nodes, m, n);
      SweptSettled(ham, beta, draws, exp, nodes, |nodes|, n);
    } else {
      SweptAhead(ham, beta, draws, exp, nodes, m, n);
    }
  }

  /** `step`: visits sites `0 .. n-1` in order and toggles site `i` in place
      when its difference is `<= 0` or the draw passes the test. */
  method Step(field: Field, ham: Hamiltonian, draws: seq<real>, exp: real -> real)
    requires InBounds(field.nodes) && |draws| == |field.nodes|
    modifies field`nodes
    ensures field.nodes == Swept(ham, field.beta, draws, exp, old(field.nodes), |old(field.nodes)|)
    ensures SameShape(old(field.nodes), field.nodes)
    ensures old(field.Valid()) ==> field.Valid()
  {
    ghost var start, beta := field.nodes, field.beta;
    for i := 0 to |field.nodes|
      invariant field.nodes == Swept(ham, beta, draws, exp, start, i)
    {
      ghost var before := field.nodes;
      var denergy := CalcEnergyDiffNode(ham, i, field);
      var accept := Accepts(denergy, field.beta, draws[i], exp);
      if accept {
        var flipped := match field.nodes[i].state
          case Up => Down
          case Down => Up;
        field.nodes := field.nodes[i := field.nodes[i].(state := flipped)];
        assert field.nodes == FlipAt(before, i);
      }
      assert field.nodes == Visit(ham, beta, draws, exp, before, i);
    }
    if old(field.Valid()) {
      ShapeKeepsToroidal(field.width, field.height, start, field.nodes);
    }
  }
}
