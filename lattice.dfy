/** The spin lattice: spins, sites with their two stored neighbours, the
    toroidal row-major addressing, and the `Field` object that owns the
    sites and is updated in place. */
module Lattice {

  /** A site's spin. */
  datatype Spin = Up | Down {
    /** The Up/Down toggle that a sweep applies to an accepted site. */
    function Flipped(): (s: Spin)
      ensures s != this
    {
      match this
      case Up => Down
      case Down => Up
    }
  }

  /** The fixed-size pair of stored neighbour indices: north, then west.
      Only these two are stored so that every bond is counted once. */
  type Neighbors = s: seq<nat> | |s| == 2 witness [0, 0]

  /** One lattice site. `Node(sp, [n, e])` is the source's `Node::new`. */
  datatype Node = Node(state: Spin, neighbor: Neighbors) {
    /** `Node::randomize` with the fair coin it draws given as `coin`. */
    function Randomized(coin: bool): (n: Node)
      ensures n.neighbor == neighbor
      ensures n.state == Up <==> coin
    {
      if coin then this.(state := Up) else this.(state := Down)
    }
  }

  /** The row (or column) before `k` on a ring of `n`, wrapping 0 to n - 1. */
  function Prev(k: nat, n: nat): (p: nat)
    requires k < n
    ensures p < n
    ensures p == (k + n - 1) % n
  {
    if k == 0 then
      Coordinates(n, 1, 0, n - 1);
      n - 1
    else
      Coordinates(n, 2, 1, k - 1);
      k - 1
  }

  /** The row (or column) after `k` on a ring of `n`: the inverse of `Prev`. */
  function Next(k: nat, n: nat): (p: nat)
    requires k < n
    ensures p < n && Prev(p, n) == k
    ensures p == (k + 1) % n
  {
    if k == n - 1 then
      Coordinates(n, 2, 1, 0);
      0
    else
      Coordinates(n, 1, 0, k + 1);
      k + 1
  }

  lemma NextPrev(k: nat, n: nat)
    requires k < n
    ensures Next(Prev(k, n), n) == k
  {
  }

  lemma MulMono(a: nat, b: nat, c: nat)
    requires b <= c
    ensures a * b <= a * c
  {
    assert a * c == a * b + a * (c - b);
  }

  /** Quotient and remainder of a row-major index are unique. */
  lemma UniqueQuotient(width: nat, q: nat, r: nat, a: nat, b: nat)
    requires a < width && b < width
    requires width * q + a == width * r + b
    ensures q == r && a == b
  {
    if q > r {
      MulMono(width, 1, q - r);
    } else if q < r {
      MulMono(width, 1, r - q);
    }
  }

  /** The site at row `r`, column `c` has index `width * r + c`, and that
      index gives back its row and column. */
  lemma Coordinates(width: nat, height: nat, r: nat, c: nat)
    requires r < height && c < width
    ensures width * r + c < width * height
    ensures (width * r + c) / width == r && (width * r + c) % width == c
  {
    MulMono(width, r + 1, height);
    var i := width * r + c;
    UniqueQuotient(width, i / width, r, i % width, c);
  }

  /** Every index below `width * height` is the row-major index of a site. */
  lemma RowMajor(width: nat, height: nat, i: nat)
    requires i < width * height
    ensures width > 0 && i / width < height && i % width < width
    ensures i == width * (i / width) + i % width
  {
    if i / width >= height {
      MulMono(width, height, i / width);
    }
  }

  /** The north and west neighbours that `Field::create` stores for the
      site with row-major index `i`, both wrapping round the torus. */
  function TorusNeighbors(width: nat, height: nat, i: nat): (nb: Neighbors)
    requires i < width * height
    ensures nb[0] < width * height && nb[1] < width * height
  {
    RowMajor(width, height, i);
    var r, c := i / width, i % width;
    Coordinates(width, height, Prev(r, height), c);
    Coordinates(width, height, r, Prev(c, width));
    [width * Prev(r, height) + c, width * r + Prev(c, width)]
  }

  /** The two sites whose stored bonds point at site `i`: the one south of
      it (which stores `i` as its north neighbour) and the one east of it
      (which stores `i` as its west neighbour). */
  function TorusIncoming(width: nat, height: nat, i: nat): (nb: Neighbors)
    requires i < width * height
    ensures nb[0] < width * height && nb[1] < width * height
  {
    RowMajor(width, height, i);
    var r, c := i / width, i % width;
    Coordinates(width, height, Next(r, height), c);
    Coordinates(width, height, r, Next(c, width));
    [width * Next(r, height) + c, width * r + Next(c, width)]
  }

  /** The lattice invariant: `width * height` sites in row-major order, each
      storing its toroidal north and west neighbours. */
  ghost predicate Toroidal(width: nat, height: nat, nodes: seq<Node>) {
    && |nodes| == width * height
    && forall i {:trigger TorusNeighbors(width, height, i)} | 0 <= i < |nodes| ::
         nodes[i].neighbor == TorusNeighbors(width, height, i)
  }

  /** Every stored neighbour index is a valid index into `nodes`, so that no
      energy computation indexes out of range. */
  predicate InBounds(nodes: seq<Node>) {
    forall i, k | 0 <= i < |nodes| && 0 <= k < 2 :: nodes[i].neighbor[k] < |nodes|
  }

  /** Two node sequences with the same length and the same neighbour lists. */
  ghost predicate SameShape(a: seq<Node>, b: seq<Node>) {
    |a| == |b| && forall k | 0 <= k < |a| :: a[k].neighbor == b[k].neighbor
  }

  /** `nodes` with only the spin of site `i` toggled. */
  function FlipAt(nodes: seq<Node>, i: nat): (r: seq<Node>)
    requires i < |nodes|
    ensures SameShape(nodes, r) && (InBounds(nodes) ==> InBounds(r))
    ensures r[i].state == nodes[i].state.Flipped()
    ensures forall k | 0 <= k < |nodes| && k != i :: r[k] == nodes[k]
  {
    var r := nodes[i := nodes[i].(state := nodes[i].state.Flipped())];
    if InBounds(nodes) then
      SameShapeInBounds(nodes, r);
      r
    else
      r
  }

  /** Valid neighbour indices depend only on the neighbour lists. */
  lemma SameShapeInBounds(a: seq<Node>, b: seq<Node>)
    requires InBounds(a) && SameShape(a, b)
    ensures InBounds(b)
  {
    forall i, k | 0 <= i < |b| && 0 <= k < 2
      ensures b[i].neighbor[k] < |b|
    {
      assert b[i].neighbor == a[i].neighbor;
    }
  }

  /** The stored north neighbour comes earlier in the row-major order exactly
      when the site is not in the first row, and the stored west neighbour
      exactly when it is not in the first column. On a lattice one wide (or
      one high) the self-bond makes both sides false. */
  lemma NeighbourOrder(width: nat, height: nat, nodes: seq<Node>, i: nat)
    requires Toroidal(width, height, nodes) && i < |nodes|
    ensures nodes[i].neighbor[0] < i <==> i / width >= 1
    ensures nodes[i].neighbor[1] < i <==> i % width >= 1
  {
    RowMajor(width, height, i);
    var r, c := i / width, i % width;
    var nb := TorusNeighbors(width, height, i);
    if r == 0 {
      if height >= 2 {
        MulMono(width, 1, height - 1);
      }
    } else {
      assert width * r == width * (r - 1) + width;
    }
  }

  lemma ToroidalInBounds(width: nat, height: nat, nodes: seq<Node>)
    requires Toroidal(width, height, nodes)
    ensures InBounds(nodes)
  {
    forall i, k | 0 <= i < |nodes| && 0 <= k < 2
      ensures nodes[i].neighbor[k] < |nodes|
    {
      var nb := TorusNeighbors(width, height, i);
    }
  }

  /** Changing only spins keeps the lattice invariant. */
  lemma {:induction false} ShapeKeepsToroidal(width: nat, height: nat, a: seq<Node>, b: seq<Node>)
    requires Toroidal(width, height, a) && SameShape(a, b)
    ensures Toroidal(width, height, b)
  {
    forall i | 0 <= i < |b|
      ensures b[i].neighbor == TorusNeighbors(width, height, i)
    {
      assert b[i].neighbor == a[i].neighbor;
    }
  }

  /** Toroidal adjacency in modular form: the site at row `r`, column `c`
      stores `((r - 1) mod height, c)` and `(r, (c - 1) mod width)`. */
  lemma ToroidalAdjacency(width: nat, height: nat, nodes: seq<Node>, r: nat, c: nat)
    requires Toroidal(width, height, nodes)
    requires r < height && c < width
    ensures width * r + c < |nodes|
    ensures nodes[width * r + c].neighbor[0] == width * ((r + height - 1) % height) + c
    ensures nodes[width * r + c].neighbor[1] == width * r + (c + width - 1) % width
  {
    Coordinates(width, height, r, c);
    var nb := TorusNeighbors(width, height, width * r + c);
  }

  /** On a lattice one site wide (or high) the wrap makes a site its own
      west (or north) neighbour: a self-bond, still a valid index. */
  lemma DegenerateSelfBond(width: nat, height: nat, nodes: seq<Node>, i: nat)
    requires Toroidal(width, height, nodes) && i < |nodes|
    ensures width == 1 ==> nodes[i].neighbor[1] == i
    ensures height == 1 ==> nodes[i].neighbor[0] == i
  {
    RowMajor(width, height, i);
    var nb := TorusNeighbors(width, height, i);
  }

  /** On a lattice at least two wide and two high no site stores itself. */
  lemma NoSelfBond(width: nat, height: nat, nodes: seq<Node>, i: nat)
    requires Toroidal(width, height, nodes) && i < |nodes|
    requires width >= 2 && height >= 2
    ensures nodes[i].neighbor[0] != i && nodes[i].neighbor[1] != i
  {
    RowMajor(width, height, i);
    var r, c := i / width, i % width;
    var nb := TorusNeighbors(width, height, i);
    if nb[0] == i {
      UniqueQuotient(width, Prev(r, height), r, c, c);
    }
  }

  /** On a lattice at least two wide and two high the north and west
      neighbours of a site are different sites. */
  lemma DistinctNeighbours(width: nat, height: nat, nodes: seq<Node>, i: nat)
    requires Toroidal(width, height, nodes) && i < |nodes|
    requires width >= 2 && height >= 2
    ensures nodes[i].neighbor[0] != nodes[i].neighbor[1]
  {
    RowMajor(width, height, i);
    var r, c := i / width, i % width;
    var nb := TorusNeighbors(width, height, i);
    if nb[0] == nb[1] {
      UniqueQuotient(width, Prev(r, height), r, c, Prev(c, width));
    }
  }

  /** Site `k` stores `i` as its north neighbour exactly when `k` is the site
      south of `i`, and as its west neighbour exactly when `k` is the site
      east of `i`. So every bond is stored once, from one end. */
  lemma IncomingBonds(width: nat, height: nat, nodes: seq<Node>, i: nat, k: nat)
    requires Toroidal(width, height, nodes) && i < |nodes| && k < |nodes|
    ensures nodes[k].neighbor[0] == i <==> k == TorusIncoming(width, height, i)[0]
    ensures nodes[k].neighbor[1] == i <==> k == TorusIncoming(width, height, i)[1]
  {
    RowMajor(width, height, i);
    RowMajor(width, height, k);
    var ri, ci := i / width, i % width;
    var rk, ck := k / width, k % width;
    var nb := TorusNeighbors(width, height, k);
    var inc := TorusIncoming(width, height, i);
    Coordinates(width, height, Next(ri, height), ci);
    Coordinates(width, height, ri, Next(ci, width));
    if nb[0] == i {
      UniqueQuotient(width, Prev(rk, height), ri, ck, ci);
      NextPrev(rk, height);
    }
    if k == inc[0] {
      UniqueQuotient(width, rk, Next(ri, height), ck, ci);
    }
    if nb[1] == i {
      UniqueQuotient(width, rk, ri, Prev(ck, width), ci);
      NextPrev(ck, width);
    }
    if k == inc[1] {
      UniqueQuotient(width, rk, ri, ck, Next(ci, width));
    }
  }

  /** The neighbours `Field::create` pushes for row `h`, column `w` are
      those of the site's row-major index. */
  lemma PushedNeighbors(width: nat, height: nat, h: nat, w: nat)
    requires h < height && w < width
    ensures width * h + w < width * height
    ensures [width * Prev(h, height) + w, width * h + Prev(w, width)]
         == TorusNeighbors(width, height, width * h + w)
  {
    Coordinates(width, height, h, w);
  }

  /** The sites `Field::create` has pushed once `n` of them are in place:
      all Up, each storing its wrapped north and west neighbours. */
  ghost predicate CreatedPrefix(width: nat, height: nat, ns: seq<Node>) {
    |ns| <= width * height
    && forall i | 0 <= i < |ns| :: ns[i] == Node(Up, TorusNeighbors(width, height, i))
  }

  /** The inner loop of `Field::create`: the sites of row `h`, west to east. */
  method PushRow(width: nat, height: nat, h: nat, ns: seq<Node>) returns (row: seq<Node>)
    requires h < height && |ns| == width * h && CreatedPrefix(width, height, ns)
    ensures |row| == width * (h + 1) && CreatedPrefix(width, height, row)
  {
    MulMono(width, h + 1, height);
    row := ns;
    for w := 0 to width
      invariant |row| == width * h + w && CreatedPrefix(width, height, row)
    {
      var hPrev := if h == 0 then height - 1 else h - 1;
      var wPrev := if w == 0 then width - 1 else w - 1;
      PushedNeighbors(width, height, h, w);
      row := row + [Node(Up, [width * hPrev + w, width * h + wPrev])];
    }
  }

  /** The outer loop of `Field::create`: rows pushed top to bottom. A zero
      dimension gives an empty lattice. */
  method CreateNodes(width: nat, height: nat) returns (ns: seq<Node>)
    ensures Toroidal(width, height, ns)
    ensures forall i | 0 <= i < |ns| :: ns[i].state == Up
  {
    ns := [];
    for h := 0 to height
      invariant |ns| == width * h && CreatedPrefix(width, height, ns)
    {
      ns := PushRow(width, height, h, ns);
    }
  }

  /** The source's `Field`: the lattice dimensions, the inverse temperature
      and the site vector, which is overwritten in place. */
  class Field {
    var width: nat
    var height: nat
    var beta: real
    var nodes: seq<Node>

    ghost predicate Valid()
      reads this
    {
      Toroidal(width, height, nodes)
    }

    /** `Field::create`: the dimensions and `beta` stored as given, and the
        sites built by `CreateNodes`. */
    constructor Create(width: nat, height: nat, beta: real)
      ensures Valid()
      ensures this.width == width && this.height == height && this.beta == beta
      ensures forall i | 0 <= i < |nodes| :: nodes[i].state == Up
    {
      var ns := CreateNodes(width, height);
      this.width := width;
      this.height := height;
      this.beta := beta;
      this.nodes := ns;
    }

    /** `Field::randomize`: every site's spin is overwritten by one fair
        coin, `coins[i]` being the coin drawn for site `i`. */
    method Randomize(coins: seq<bool>)
      requires |coins| == |nodes|
      modifies this`nodes
      ensures SameShape(old(nodes), nodes)
      ensures forall i | 0 <= i < |nodes| :: nodes[i] == old(nodes[i]).Randomized(coins[i])
      ensures old(Valid()) ==> Valid()
    {
      for i := 0 to |nodes|
        invariant |nodes| == |old(nodes)|
        invariant forall k | 0 <= k < i :: nodes[k] == old(nodes[k]).Randomized(coins[k])
        invariant forall k | i <= k < |nodes| :: nodes[k] == old(nodes[k])
      {
        nodes := nodes[i := nodes[i].Randomized(coins[i])];
      }
      if old(Valid()) {
        ShapeKeepsToroidal(width, height, old(nodes), nodes);
      }
    }
  }
}
