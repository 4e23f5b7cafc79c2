# Rule 184 traffic automaton and xorshift32, modelled in Dafny

This project models two traffic simulations and a random number generator:

- **Serial program.** A one-dimensional traffic simulation (Wolfram's Rule 184) on a ring of `N` cells. Each cell holds `0` (empty) or `1` (a car). The program keeps the road in a buffer of `N + 2` slots. Slots `0` and `N + 1` are ghost copies of the opposite ends. On every step the program:
  - refreshes the ghosts;
  - computes each new cell as `C' = (L = 1 and C = 0) or (C = 1 and R = 1)` into a second buffer;
  - counts the cars that move (`C = 1, R = 0`);
  - adds that count to a running total;
  - swaps the buffers.
- **Distributed program.** It splits the same ring into `size` equal slices, one per process (rank):
  - the ranks' neighbours form a ring;
  - two send-receive exchanges fill each rank's ghost slots from its neighbours' boundary cells;
  - each rank applies the same rule to its slice;
  - car and move counts are sum-reduced over the ranks.
- **xorshift32 generator.** A 32-bit state word is seeded so that it is never zero and advanced by three xor-shift steps.

## Modules

- `Rule184` (`rule.dfy`) defines the local rule and the move flag. It proves:
  - the full truth table;
  - that new cells stay in {0, 1};
  - the flux identity: a cell gains the car arriving from its left and loses its own car when that car moves.
- `Ring` (`ring.dfy`) defines a step of the whole ring, the iterated run and the running total. It proves:
  - car conservation;
  - the bound `moves <= cars` and `total <= iterations * cars`;
  - that the total is monotone;
  - that a counted cell is exactly one that was occupied and becomes empty;
  - that the ghost-slot buffer layout computes the ring step.
- `Aggregate` (`aggregate.dfy`) holds:
  - sums, which model the counting loops and the `MPI_SUM` reductions;
  - the concatenation of equal slices, which models the scatter layout.
- `Partition` (`partition.dfy`) holds the serial program's in-place rule loop over a ghosted buffer. The distributed program runs the same loop over one row of its rank buffers (`Distributed.Processes.StepRank`). Both loops are specified by the same window functions, `Ring.WindowStep` and `Ring.WindowMoves`.
- `Serial` (`serial.dfy`) is the serial program: two arrays, the ghost refresh, the car count and the simulation loop.
- `Halo` (`halo.dfy`) models message passing as pure functions over a sequence of slices:
  - a send-receive routes values by the neighbour tables;
  - a halo exchange fills each rank's ghosts;
  - the scatter splits the road into slices.

  It proves that the concatenated distributed step equals the serial ring step, and that the summed local move counts equal the serial count, for every number of ranks that divides `N`.
- `Distributed` (`distributed.dfy`) is the distributed program as a class. It holds the ranks' memories as the rows of two `array2<int>` buffers. The collectives are loops over the ranks.
- `Simulation` (`simulation.dfy`) states what either program reports: the argument errors, the zero-car short circuit, and the move total with the car count. It also covers the integer facts about the velocity ratio.
- `Xorshift` and `Generator` (`rng.dfy`) are the generator:
  - a pure transform on `bv32`;
  - its injectivity, so a nonzero state never reaches zero;
  - a class `Rng32` whose field `s` the seeding and the draws update in place.

The rule as coded at `cellular_autom_serial.c:71-75` moves each car whose right neighbour is empty. So the ring `1, 0, 1, 0` steps to `0, 1, 0, 1` with 2 moves (`Ring.AlternatingRoad`).

## Model

| member | source | states |
|---|---|---|
| Rule184.TruthTable | Reto_3/RETO3-1/RETO3/SERIAL/cellular_autom_serial.c:71-80 | all eight rows of the rule: a new cell is 1 exactly for (L,C,R) in {011, 100, 101, 111}; a move is flagged exactly for C = 1, R = 0 |
| Rule184.NextIsCell | Reto_3/RETO3-1/RETO3/SERIAL/cellular_autom_serial.c:71-75 | the new cell is always 0 or 1, whatever the neighbourhood |
| Rule184.Flux | Reto_3/RETO3-1/RETO3/SERIAL/cellular_autom_serial.c:71-80 | on cells in {0, 1}, the new cell is the old one plus the car moving in from the left minus the car moving out |
| Rule184.MovesIffEmptied | Reto_3/RETO3-1/RETO3/SERIAL/cellular_autom_serial.c:71-80 | a move is counted for a cell exactly when it was occupied and is empty after the step |
| Ring.LeftOf | Reto_3/RETO3-1/RETO3/MPI/cellular_autom_mpi.c:102 | the left neighbour of a position (or rank) is in [0, n) |
| Ring.RightOf | Reto_3/RETO3-1/RETO3/MPI/cellular_autom_mpi.c:103 | the right neighbour of a position (or rank) is in [0, n) |
| Ring.NeighboursAreModular | Reto_3/RETO3-1/RETO3/MPI/cellular_autom_mpi.c:102-103 | the conditional neighbours are (i - 1) mod n and (i + 1) mod n, and left and right undo each other |
| Ring.RightOfLeft | Reto_3/RETO3-1/RETO3/MPI/cellular_autom_mpi.c:102-103 | the right neighbour of the left neighbour is the position itself |
| Ring.StepIsBinary | Reto_3/RETO3-1/RETO3/SERIAL/cellular_autom_serial.c:64-75 | a step keeps the road's length and keeps every cell in {0, 1} |
| Ring.MovedIffEmptied | Reto_3/RETO3-1/RETO3/SERIAL/cellular_autom_serial.c:71-80 | on a road of cells, the counted positions are exactly those occupied before the step and empty after it |
| Ring.RingFlux | Reto_3/RETO3-1/RETO3/SERIAL/cellular_autom_serial.c:64-80 | each new cell equals the old cell plus the left neighbour's move flag minus its own |
| Ring.CarsConserved | Reto_3/RETO3-1/RETO3/SERIAL/cellular_autom_serial.c:64-75 | a step preserves the number of cars, which is why the car count from initialisation is still the right divisor |
| Ring.MovesBounded | Reto_3/RETO3-1/RETO3/SERIAL/cellular_autom_serial.c:77-80 | the moves of one step are between 0 and the number of cars |
| Ring.MovesNonNegative | Reto_3/RETO3-1/RETO3/SERIAL/cellular_autom_serial.c:77-80 | the move count of any step is at least 0 |
| Ring.AlternatingRoad | Reto_3/RETO3-1/RETO3/SERIAL/cellular_autom_serial.c:71-80 | the ring 1,0,1,0 steps to 0,1,0,1 with 2 moves |
| Ring.IterateInvariant | Reto_3/RETO3-1/RETO3/SERIAL/cellular_autom_serial.c:56-89 | after any number of steps the road has its original length, only 0/1 cells and the original number of cars |
| Ring.TotalMovesBounded | Reto_3/RETO3-1/RETO3/SERIAL/cellular_autom_serial.c:83-93 | after k steps, 0 <= total moves <= k * cars: the velocity lies in [0, 1] |
| Ring.TotalMovesWithin | Reto_3/RETO3-1/RETO3/SERIAL/cellular_autom_serial.c:83-93 | the same bound, with k * cars accumulated by addition as the total is |
| Ring.IteratedMovesBounded | Reto_3/RETO3-1/RETO3/SERIAL/cellular_autom_serial.c:77-83 | every step of a run moves between 0 and the initial number of cars |
| Ring.TotalMovesMonotone | Reto_3/RETO3-1/RETO3/SERIAL/cellular_autom_serial.c:52-83 | the running total never decreases from one iteration to a later one |
| Ring.GhostedIsRing | Reto_3/RETO3-1/RETO3/SERIAL/cellular_autom_serial.c:60-67 | with slot 0 holding the last cell and slot N+1 the first, the buffer's new cells, flags and moves are those of the ring step |
| Aggregate.SumConcat | Reto_3/RETO3-1/RETO3/MPI/cellular_autom_mpi.c:84-90 | a sum over a concatenation is the sum of the parts' sums |
| Aggregate.SumFlatten | Reto_3/RETO3-1/RETO3/MPI/cellular_autom_mpi.c:84-90 | the sum over the whole road equals the sum of the per-rank sums: the all-reduce of local counts gives the global count |
| Aggregate.OffsetIsProduct | Reto_3/RETO3-1/RETO3/MPI/cellular_autom_mpi.c:41 | the offset of slice r is r * local_N, so local_N * size = N |
| Aggregate.FlattenLength | Reto_3/RETO3-1/RETO3/MPI/cellular_autom_mpi.c:75-77 | size slices of local_N cells concatenate to size * local_N cells |
| Aggregate.FlattenAt | Reto_3/RETO3-1/RETO3/MPI/cellular_autom_mpi.c:75-77 | cell k of slice r sits at r * local_N + k of the concatenation |
| Aggregate.FlattenUnique | Reto_3/RETO3-1/RETO3/MPI/cellular_autom_mpi.c:75-77 | a road that agrees with every slice at r * local_N + k is the concatenation of the slices |
| Simulation.CarCount | Reto_3/RETO3-1/RETO3/SERIAL/cellular_autom_serial.c:35-46 | the car count lies between 0 and N, and is 0 exactly when every cell is empty |
| Simulation.ExpectedReport | Reto_3/RETO3-1/RETO3/SERIAL/cellular_autom_serial.c:14-93 | a run is rejected exactly for N <= 0 or iterations <= 0, prints the zero-car line exactly for an all-empty road, and otherwise reports 0 < cars <= N and 0 <= moves <= iterations * cars |
| Simulation.DenominatorOverflows | Reto_3/RETO3-1/RETO3/SERIAL/cellular_autom_serial.c:93 | an accepted run (32768 cars, 65536 iterations) whose denominator overflows `int` |
| Simulation.VelocityRatioFits | Reto_3/RETO3-1/RETO3/MPI/cellular_autom_mpi.c:162 | with the product widened to 64 bits, numerator and denominator fit a `long long` and 0 <= moves <= denominator, with the denominator positive |
| Partition.ApplyRule | Reto_3/RETO3-1/RETO3/SERIAL/cellular_autom_serial.c:64-81 | the loop writes the rule's value for each real slot 1..n, counts the window's moves, and leaves the ghost slots of the target buffer alone |
| Serial.RefreshGhosts | Reto_3/RETO3-1/RETO3/SERIAL/cellular_autom_serial.c:60-61 | after the refresh the buffer is the ghosted form of its real cells, so stale ghosts left by the swap are never read |
| Serial.LoadRoad | Reto_3/RETO3-1/RETO3/SERIAL/cellular_autom_serial.c:35-38 | slots 1..N hold the initial road and the count is its number of cars |
| Serial.Simulate | Reto_3/RETO3-1/RETO3/SERIAL/cellular_autom_serial.c:14-89 | the report is `Simulation.Expected` (the argument error, the zero-car line, or the total of the ring steps with the car count), and the final road is the iterated ring step |
| Halo.SendsArrive | Reto_3/RETO3-1/RETO3/MPI/cellular_autom_mpi.c:115-117 | a send-receive completes exactly when sends and receives pair up, and then every value a rank sends is the one its destination receives: no message is lost or misrouted |
| Halo.RingExchangesMatch | Reto_3/RETO3-1/RETO3/MPI/cellular_autom_mpi.c:115-123 | both exchanges (send left, receive from right; send right, receive from left) are matched for every number of ranks |
| Halo.ExchangesDeliverGhosts | Reto_3/RETO3-1/RETO3/MPI/cellular_autom_mpi.c:115-123 | after the exchanges, rank r's right ghost is its right neighbour's first cell and its left ghost its left neighbour's last cell |
| Halo.SingleRankExchange | Reto_3/RETO3-1/RETO3/MPI/cellular_autom_mpi.c:102-123 | with one rank the exchange is the serial ghost refresh |
| Halo.Scatter | Reto_3/RETO3-1/RETO3/MPI/cellular_autom_mpi.c:75-77 | the scatter gives each of the size ranks a slice of exactly local_N cells |
| Halo.ScatterAt | Reto_3/RETO3-1/RETO3/MPI/cellular_autom_mpi.c:75-77 | rank r's cell k is global cell r * local_N + k |
| Halo.ScatterLayout | Reto_3/RETO3-1/RETO3/MPI/cellular_autom_mpi.c:75-77 | concatenating the scattered slices gives back the global road |
| Halo.WindowIsRingWindow | Reto_3/RETO3-1/RETO3/MPI/cellular_autom_mpi.c:126-141 | in an exchanged buffer, rank r's cell k and its move flag are those of global position r * local_N + k of the ring |
| Halo.StepsConcatenate | Reto_3/RETO3-1/RETO3/MPI/cellular_autom_mpi.c:126-136 | the concatenation of the ranks' new cells is the serial ring step |
| Halo.FlagsConcatenate | Reto_3/RETO3-1/RETO3/MPI/cellular_autom_mpi.c:138-141 | the concatenation of the ranks' move flags is the serial step's flags |
| Halo.DistributedIsSerial | Reto_3/RETO3-1/RETO3/MPI/cellular_autom_mpi.c:126-151 | for any number of ranks dividing N, the distributed step concatenates to the serial step and the reduced move count equals the serial one |
| Distributed.Processes.constructor | Reto_3/RETO3-1/RETO3/MPI/cellular_autom_mpi.c:44-77 | each rank gets two buffers of local_N + 2 slots, its real slots holding its scattered slice |
| Distributed.Processes.CountCars | Reto_3/RETO3-1/RETO3/MPI/cellular_autom_mpi.c:84-87 | a rank's local count is the number of cars in its slice |
| Distributed.Processes.CountAll | Reto_3/RETO3-1/RETO3/MPI/cellular_autom_mpi.c:84-90 | the all-reduced count is the number of cars on the whole road |
| Distributed.Processes.GatherFirsts | Reto_3/RETO3-1/RETO3/MPI/cellular_autom_mpi.c:115 | the values sent in the first exchange are the ranks' first real cells |
| Distributed.Processes.GatherLasts | Reto_3/RETO3-1/RETO3/MPI/cellular_autom_mpi.c:121 | the values sent in the second exchange are the ranks' last real cells |
| Distributed.Processes.Deliver | Reto_3/RETO3-1/RETO3/MPI/cellular_autom_mpi.c:116-122 | each rank's receiving slot takes its received value and nothing else changes |
| Distributed.Processes.ExchangeHalos | Reto_3/RETO3-1/RETO3/MPI/cellular_autom_mpi.c:115-123 | after the two exchanges every rank's buffer is the pure exchange of the slices |
| Distributed.Processes.StepRank | Reto_3/RETO3-1/RETO3/MPI/cellular_autom_mpi.c:126-142 | one rank's loop writes the rule's cells into its other buffer, counts its window's moves, and leaves the other ranks alone |
| Distributed.Processes.StepAll | Reto_3/RETO3-1/RETO3/MPI/cellular_autom_mpi.c:126-147 | after every rank's loop and the swap, the slices are the distributed step and the local counts its per-rank moves |
| Distributed.Processes.Round | Reto_3/RETO3-1/RETO3/MPI/cellular_autom_mpi.c:109-151 | one iteration turns the concatenated road into its serial step, and the reduced count is the serial step's moves |
| Distributed.Processes.Advance | Reto_3/RETO3-1/RETO3/MPI/cellular_autom_mpi.c:109-155 | one iteration takes a road after k steps and its total to the road after k + 1 steps and the total of k + 1 steps |
| Distributed.Processes.Rounds | Reto_3/RETO3-1/RETO3/MPI/cellular_autom_mpi.c:109-156 | the loop leaves the road after `iterations` steps and rank 0's total as the sum of their move counts |
| Distributed.Processes.Run | Reto_3/RETO3-1/RETO3/MPI/cellular_autom_mpi.c:105-156 | from a zero total, the final slices concatenate to the iterated serial road and the total is the serial total |
| Distributed.Simulate | Reto_3/RETO3-1/RETO3/MPI/cellular_autom_mpi.c:24-156 | the distributed report is the serial one (errors, plus the divisibility error), whatever the number of ranks, and the final road is the iterated ring step |
| Xorshift.SeedState | Reto_1/Reto_1/rng.h:7-9 | a zero seed becomes 0x9E3779B9, any other seed is kept, and the state is never 0 |
| Xorshift.Shl13Injective | Reto_1/Reto_1/rng.h:12 | `x ^= x << 13` on 32-bit words loses no information |
| Xorshift.Shr17Injective | Reto_1/Reto_1/rng.h:12 | `x ^= x >> 17` on 32-bit words loses no information |
| Xorshift.Shl5Injective | Reto_1/Reto_1/rng.h:12 | `x ^= x << 5` on 32-bit words loses no information |
| Xorshift.StepInjective | Reto_1/Reto_1/rng.h:11-12 | distinct states have distinct successors: the transform is a permutation of the 32-bit words |
| Xorshift.ZeroIsFixed | Reto_1/Reto_1/rng.h:8-12 | the successor is 0 exactly when the state is 0 |
| Xorshift.OrbitNonZero | Reto_1/Reto_1/rng.h:7-13 | a seeded generator never reaches state 0, however many draws it makes |
| Xorshift.TopBits | Reto_1/Reto_1/rng.h:16 | the integer a draw in [0, 1) scales is below 2^24 |
| Generator.Rng32.Seed | Reto_1/Reto_1/rng.h:7-9 | the state becomes the seed, or 0x9E3779B9 for a zero seed, and is nonzero |
| Generator.Rng32.Next | Reto_1/Reto_1/rng.h:10-13 | the returned value is the transform of the old state and is the new state; a nonzero state stays nonzero |
| Generator.Rng32.Next01Bits | Reto_1/Reto_1/rng.h:14-17 | the state advances exactly once and the integer part is the new state's top 24 bits, below 2^24 |

## Left out

- Communication is not modelled as concurrency: `MPI_Init`, `MPI_Scatter`, `MPI_Sendrecv`, `MPI_Allreduce` and `MPI_Finalize` are sequential loops or pure functions over the ranks' memories. Deadlock freedom, message tags and ordering are not modelled.
- Distributed.Processes.Rounds: the all-reduced move count reaches every rank, but only rank 0 adds it up. The model keeps the one total, rank 0's.
- Command-line parsing (`argc`, `atoi`), `fprintf`/`printf` output and the `malloc` failure branches are I/O and allocation, and are not modelled. `N`, `iterations` and `size` are parameters, and the report is the `Outcome` value that the output line prints.
- `srand(time(NULL))` and `rand() % 2` are randomness. The initial road is a parameter; the properties that need it in {0, 1} require that.
- Timing (`clock`, `MPI_Wtime`) and the `double` division for the average velocity are left out. Only the integer numerator and denominator are modelled (`Simulation.VelocityRatio`).
- Serial.Simulate and Distributed.Simulate: the final road is returned as a ghost value, because the programs free it without printing it.
- Generator.Rng32.Next01Bits: the conversion to `double` and the scaling by 2^-24 are floating point. The method returns the 24-bit integer that is scaled.
- Xorshift.StepInjective: the transform is shown injective, hence a permutation of the 32-bit words. An explicit inverse function is not given.
- The other programs of the repository (matrix multiplication, the Monte Carlo estimators, the summary script) are not part of this model.

## Findings

| source | as written | input that shows it | evidently intended | confidence | as-written member | corrected member |
|---|---|---|---|---|---|---|
| Reto_3/RETO3-1/RETO3/SERIAL/cellular_autom_serial.c:93 | `iterations * total_cars` is a product of two `int`s, evaluated before the cast to `double`; it overflows (undefined behaviour in C) for accepted arguments. The same expression appears at cellular_autom_mpi.c:162 | N = 32768 with every cell occupied and iterations = 65536: the product 2^31 exceeds `INT_MAX` | the denominator computed in 64 bits, like `global_moves`, so the ratio is in [0, 1] | not executed | Simulation.DenominatorOverflows | Simulation.VelocityRatioFits |
