# Ising lattice Monte Carlo: a verified model

This project models the core of a small two-dimensional Ising simulator. The
simulator keeps a `width x height` lattice of Up/Down spins on a torus and
stores it as a vector of sites in row-major order. Each site stores the
indices of two neighbours only, its north one and its west one, so that every
bond is counted once. A Hamiltonian with coupling `j` and field `h` gives each
site an energy and gives the lattice a total energy. A Metropolis-style sweep
(`step`) visits the sites in index order. It flips a site when its local flip
difference is `<= 0`, or when a uniform draw passes the exponential test.

The model has three modules:

- `Lattice` (`lattice.dfy`) holds `Spin`, `Node` and the toroidal addressing.
  It also holds the `Field` class, whose site sequence `nodes` is overwritten
  in place by `Create`, `Randomize` and the sweep.
- `Energy` (`energy.dfy`) holds the `Hamiltonian` and the specification
  functions `SiteEnergy`, `TotalEnergy` and `FlipDiff`. It has one loop
  method per computing function of the source, and each method is proved
  equal to its specification function. It also proves lemmas about these
  functions: bounds, a closed form, locality, the all-Up energy, and how a
  flip changes the total.
- `Simulation` (`simulation.dfy`) holds the sweep. `Step` is a method that
  updates a `Field` in place. It is proved equal to `Swept`, a function that
  applies the visits one after another. Lemmas about `Swept` state what a
  sweep does to each site.

Points where the code's behaviour may be unexpected:

- A lattice created with a zero dimension is empty. No error is raised.
- The all-Up lattice with `h = 0` has total energy `-2 * j * width * height`.
  Each site stores two matching bonds, and `calc_energy` charges `-j` for
  each of them.
- The flip difference is the site's energy with its current spin minus its
  energy with the opposite spin (`energy_prev - energy_next`). A flip happens
  when that value is `<= 0`. This is kept as written. `FlipDiffIsSiteChange`
  states the sign relation exactly.
- The flip difference reads only the site's two stored bonds. It does not see
  the two bonds that the sites south and east of it store toward it, so it is
  not the change in total energy. `FlipChangesTotal` gives that change
  exactly.
- The acceptance test is kept as written: `draw > exp(-beta * diff)`.

## Model

| member | source | states |
|---|---|---|
| Lattice.Spin.Flipped | src/main.rs:151-154 | the toggle a sweep applies always yields the other spin |
| Lattice.Node.Randomized | src/main.rs:46-52 | the site's spin is Up exactly when the coin is true; its neighbour indices are unchanged |
| Lattice.Prev | src/main.rs:68-69 | the wrapped predecessor on a ring of `n` is a valid position and equals `(k + n - 1) mod n` |
| Lattice.Next | src/main.rs:68-69 | the successor on the ring is a valid position, equals `(k + 1) mod n`, and `Prev` undoes it |
| Lattice.NextPrev | src/main.rs:68-69 | `Next` undoes `Prev`, so the two wraps are mutually inverse |
| Lattice.Coordinates | src/main.rs:66-72 | the site at row `r`, column `c` has an index below `width * height`, and that index gives back `r` and `c` |
| Lattice.RowMajor | src/main.rs:66-72 | every index below `width * height` splits into a row below `height` and a column below `width` |
| Lattice.TorusNeighbors | src/main.rs:68-72 | both stored neighbour indices of any site are below `width * height` |
| Lattice.TorusIncoming | src/main.rs:29-38 | the sites south and east of a site are valid indices |
| Lattice.FlipAt | src/main.rs:151-154 | flipping one site toggles only its spin; every other site and every neighbour list stay as they were |
| Lattice.PushedNeighbors | src/main.rs:68-72 | the pair pushed for row `h`, column `w` is exactly the wrapped north and west neighbours of index `width * h + w` |
| Lattice.PushRow | src/main.rs:67-73 | the inner loop appends row `h`'s `width` sites, each Up with its wrapped neighbours, keeping every earlier site |
| Lattice.CreateNodes | src/main.rs:65-74 | the nested loops leave `width * height` sites in row-major order, all Up, each storing its wrapped north and west neighbours |
| Lattice.Field.Create | src/main.rs:64-76 | `width * height` sites, all Up, each storing its wrapped north and west neighbours; `width`, `height` and `beta` are stored unchanged |
| Lattice.Field.Randomize | src/main.rs:78-82 | each site's spin is set from its own coin, neighbours are unchanged, and the lattice invariant is kept |
| Lattice.ToroidalInBounds | src/main.rs:64-76 | every neighbour index stored by `create` is a valid site index |
| Lattice.ShapeKeepsToroidal | src/main.rs:78-82 | changing spins only keeps the toroidal neighbour structure |
| Lattice.ToroidalAdjacency | src/main.rs:66-72 | the site at `(r, c)` stores `((r - 1) mod height, c)` as north and `(r, (c - 1) mod width)` as west |
| Lattice.NeighbourOrder | src/main.rs:66-72 | on any lattice, the north neighbour precedes the site exactly when it is not in row 0 and the west one exactly when it is not in column 0; a self-bond on a 1-wide or 1-high lattice makes both sides false |
| Lattice.DegenerateSelfBond | src/main.rs:68-69 | a 1-wide lattice makes every site its own west neighbour, and a 1-high one its own north neighbour |
| Lattice.NoSelfBond | src/main.rs:68-72 | at least 2 x 2, no site stores itself as a neighbour |
| Lattice.DistinctNeighbours | src/main.rs:68-72 | at least 2 x 2, a site's north and west neighbours are different sites |
| Lattice.IncomingBonds | src/main.rs:29-38 | a site stores `i` as north exactly when it is south of `i`, and as west exactly when it is east of `i`, so each bond is stored once |
| Energy.FieldTermFlip | src/main.rs:130-134 | the field term is `-h` for Up and `+h` for Down, and the opposite spin's field term is its negation, as `energy_next` starts from `-energy_prev` |
| Energy.Matches | src/main.rs:113-118 | the number of matching neighbours never exceeds the number of neighbours |
| Energy.MatchesLocal | src/main.rs:113-118 | the matching count and the coupling read only the spins at the given neighbour indices |
| Energy.MatchesPair | src/main.rs:113-118 | over two stored neighbours, the count and the coupling are the sums of the two single matches |
| Energy.CouplingCounts | src/main.rs:113-118 | the coupling subtracted is `j` times the number of matching stored neighbours |
| Energy.SiteEnergyBounds | src/main.rs:107-120 | for `j >= 0`, a site's energy lies between its field term minus `2j` and its field term |
| Energy.CalcEnergyNode | src/main.rs:107-120 | the loop returns the site energy: field term `-h` or `+h`, minus `j` per matching stored neighbour |
| Energy.CalcEnergy | src/main.rs:121-127 | the loop returns the sum of all site energies |
| Energy.CalcEnergyDiffNode | src/main.rs:129-144 | the loop returns the energy with the current spin minus the energy with the opposite spin, both over the stored neighbours; it modifies nothing |
| Energy.FlipDiffClosedForm | src/main.rs:129-144 | the flip difference equals `2 * field + 2j * (1 - m)`, where `m` stored neighbours match |
| Energy.FlipDiffLocal | src/main.rs:129-144 | the flip difference depends only on the site and its two stored neighbours' spins |
| Energy.FlipDiffIsSiteChange | src/main.rs:129-144 | without a self-bond, the flip difference is the site's energy before the flip minus after it |
| Energy.AllUpPartialEnergy | src/main.rs:121-127 | with all sites Up and `h = 0`, the first `n` sites contribute `-2j * n` |
| Energy.AllUpEnergy | src/main.rs:64-76 | a freshly created lattice with `h = 0` has total energy `-2j * width * height` |
| Energy.UntouchedSite | src/main.rs:107-120 | a site storing no bond to the flipped site keeps its energy |
| Energy.IncomingSiteChange | src/main.rs:107-120 | a site storing one bond to the flipped site changes energy by `+j` if that bond matched before, `-j` if not |
| Energy.PartialChange | src/main.rs:121-127 | partial sums over lattices differing at three sites differ by those sites' differences |
| Energy.FlipChangesTotalAt | src/main.rs:121-144 | with exactly one south and one east incoming bond, the total changes by minus the flip difference plus those two bond changes |
| Energy.FlipChangesTotal | src/main.rs:121-144 | at least 2 x 2, flipping site `i` changes the total by minus its flip difference plus the changes on the bonds stored by its south and east sites |
| Energy.TwoByTwoScenario | src/main.rs:64-76 | a created 2 x 2 lattice with `j = 1`, `h = 0` has total `-8`, and `-4` after site 0 is flipped |
| Simulation.Accepts | src/main.rs:150 | a difference `<= 0` is always accepted; a positive one exactly when the draw exceeds `exp(-beta * difference)` |
| Simulation.Visit | src/main.rs:149-155 | a visit changes no site but the visited one and keeps the neighbour structure |
| Simulation.Swept | src/main.rs:148-156 | a partial sweep keeps the neighbour structure and valid indices |
| Simulation.SweptAhead | src/main.rs:148-156 | sites the sweep has not reached are untouched |
| Simulation.SweptSettled | src/main.rs:148-156 | a visited site keeps the spin its own visit gave it |
| Simulation.SweepDecision | src/main.rs:149-155 | each site ends the sweep toggled exactly when the test accepts the difference computed on the lattice as the sweep found it; a difference `<= 0` always toggles |
| Simulation.SweepIsSequential | src/main.rs:148-156 | on reaching site `m`, earlier sites already hold their final spins and later ones their original spins |
| Simulation.Step | src/main.rs:147-157 | the in-place sweep leaves exactly the lattice `Swept` describes, neighbours unchanged, lattice invariant kept |

## Left out

- Printing: `Debug`, `Display`, `print_console` and `main` (src/main.rs:11-27, 84-98, 159-175) are output only.
- Random numbers are inputs. `Randomize` takes one coin per site. `Step` takes one uniform draw per site. The source draws only when the difference is positive, from the global generator rather than the one passed to `step`. Which values the generator yields is not modelled.
- Floating point: `j`, `h`, `beta` and energies are reals. The exponential is an arbitrary function passed as `exp`. Rounding, NaN and infinities are not modelled.
- Machine integers: indices are unbounded naturals, so the `usize` overflow of `width * height` is not modelled. So is the underflow of `height - 1` when `height == 0`; the loop never reaches it because it does not run.
- Lattice.Field.Create: a zero dimension gives an empty lattice, as the code does. No dimension error is modelled.
- Simulation.Step: its contract ties the result to `Swept` only. The per-site flip decision is stated in `Simulation.SweepDecision`.
