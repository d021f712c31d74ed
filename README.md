# Verified model of three puzzle solvers

This project models three small programs from one repository and proves properties of the models in Dafny.

- **The museum zone optimizer** (`museum_solver`). Zones need a requirement of three stats (time, value, popularity). Each zone is staffed with three members. `Zone::calc` turns what a zone still lacks, or has in excess, into a cost pair `(require, overflow)`. `solve_inner` is a memoised branch-and-bound search over member triples for each zone in turn. It keeps the cheapest total and the zone-to-members mapping that achieves it.
- **The navigation-compass puzzle** (`navigation_compass_solver`). Three rings show positions 0 to 5. An action turns the rings its linkage names, and each ring moves by its own step. `try_solve` looks for the smallest bag of available actions, up to 100 of them, that brings every ring to 0. The command line parses linkages written as three binary digits.
- **The byte framing of `bin_by_img`**. `encode` pads a file's bytes to the image size and rotates them right by four. It then writes the file length as a big-endian `u32` into the first four bytes. `decode` reads the length back and rotates left by four. It keeps that many bytes, or all the bytes after the header when fewer remain.

Modules:

- `MuseumCost`: attributes, zones, cost pairs, `calc` and `calc_detail`.
- `MuseumState`: the search state, `next` and the member order.
- `MuseumSolver`: the search `Search`, its plans, and the `SolveInner`/`Solve` methods with the memo table as a class.
- `Itertools`: the two `itertools` adapters used, as functions.
- `CompassRing`: the ring as a value and as a class.
- `CompassLinkage`: the linkage bit mask and its rendering.
- `Compass`: the compass as a value and as a class, and the search.
- `CompassCli`: `parse_linkages`.
- `BinFraming`: the framing, as functions and as methods on arrays.
- `Wrappers`: `Option`/`Result`.

Code that updates state in place is modelled imperatively:

- `Zone::calc`, `solve_inner` and its cache, and `Ring::rotate`;
- `NavigationCompass::do_actions` and `try_solve`;
- the buffer rotations of `encode`/`decode`.

Each such method is proved equal to a specification function. The properties are proved about those functions.

## Model

| member | source | states |
|---|---|---|
| MuseumCost.AttributeAlgebra | museum_solver/src/lib.rs:44-85 | Component-wise `+`, `-` and `mul_by`: subtraction undoes addition, addition commutes and associates, subtracting twice subtracts the sum, and `mul_by` distributes over `+` |
| MuseumCost.CostOrderIsTotal | museum_solver/src/lib.rs:151-155 | The derived order on `CalcResult` (`require` first, then `overflow`) is reflexive, antisymmetric, transitive and total, and `<` is its strict part |
| MuseumCost.AddIsMonotone | museum_solver/src/lib.rs:157-171 | Adding a cost never lowers a cost, adding a non-zero cost raises it, and `+` preserves `<=` |
| MuseumCost.SubtractAllIsSubtractSum | museum_solver/src/lib.rs:113-119 | Subtracting the members' stats one by one, as the loop of `calc` does, is subtracting their sum |
| MuseumCost.Detail | museum_solver/src/lib.rs:140-148 | `require - calc_detail(members)` is exactly the residual `require - base - 10 * sub_level - sum of member stats` |
| MuseumCost.CostOf | museum_solver/src/lib.rs:121-137 | `require + overflow` is the sum of the absolute values of the residual's components; `require` is 0 iff no component is positive, `overflow` is 0 iff none is negative, and the cost is (0, 0) iff the residual is (0, 0, 0) |
| MuseumCost.Calc | museum_solver/src/lib.rs:110-138 | For 1 to 3 members, the loop returns the cost of the residual, which is also the cost of `require - calc_detail(members)` |
| MuseumCost.ScenarioExact | museum_solver/src/lib.rs:110-138 | Three (10, 10, 10) members, no base or level bonus, requirement (30, 30, 30): cost (0, 0) |
| MuseumCost.ScenarioShort | museum_solver/src/lib.rs:110-138 | The same members with requirement (40, 40, 40): cost (30, 0) |
| MuseumCost.ScenarioExceeded | museum_solver/src/lib.rs:110-138 | The same members with requirement (20, 20, 20): cost (0, 30) |
| MuseumState.StringTrichotomy | museum_solver/src/lib.rs:7-11 | The lexicographic order on names is trichotomous |
| MuseumState.StringTransitive | museum_solver/src/lib.rs:7-11 | The lexicographic order on names is transitive |
| MuseumState.MemberOrderIsTotal | museum_solver/src/lib.rs:7-11 | The derived order of `MemberInfo` (name, then time, value, popularity) is total, antisymmetric and transitive |
| MuseumState.InsertSorted | museum_solver/src/lib.rs:207 | Inserting into an ordered sequence keeps it ordered and adds exactly one copy of the element |
| MuseumState.SortSorted | museum_solver/src/lib.rs:207 | `sorted()` returns an ordered permutation of its input |
| MuseumState.SortedUnique | museum_solver/src/lib.rs:207 | Two ordered permutations of each other are equal |
| MuseumState.SortIsCanonical | museum_solver/src/lib.rs:207 | Sorting two permutations of each other gives the same sequence |
| MuseumState.WithoutCounts | museum_solver/src/lib.rs:205 | The filter drops every copy of a chosen member and keeps every copy of the others |
| MuseumState.WithoutCount | museum_solver/src/lib.rs:205 | Chosen members that occur once each, and once in the state, are removed exactly: the multiset difference, and the length drops by the number chosen |
| MuseumState.CurrentZone | museum_solver/src/lib.rs:192-194 | The current zone is one of the state's zones |
| MuseumState.MemberCombinationsAreTriples | museum_solver/src/lib.rs:196-198 | A sequence is among the member combinations iff it is a 3-element subsequence of the members |
| MuseumState.Next | museum_solver/src/lib.rs:200-211 | The next members are sorted. As a multiset they are the state's members with every copy of a chosen one taken out, and a member is left iff it was there and was not chosen. The first zone is dropped |
| MuseumState.NextIsCanonical | museum_solver/src/lib.rs:200-211 | The next state does not depend on the order of the free members |
| MuseumState.NextOfCombination | museum_solver/src/lib.rs:200-211 | With distinct members, choosing a combination leaves exactly three fewer members, still distinct, and one zone fewer |
| MuseumState.CombinationIsDistinct | museum_solver/src/lib.rs:196-198 | With distinct members, a combination has distinct members, all drawn from the state |
| Itertools.Combinations | museum_solver/src/lib.rs:197 | Every entry of `combinations(k)` has `k` elements |
| Itertools.CombinationsCount | museum_solver/src/lib.rs:197 | `combinations(k)` has C(n, k) entries |
| Itertools.CombinationsAreSubsequences | museum_solver/src/lib.rs:197 | An entry of `combinations(k)` is exactly a `k`-element subsequence |
| Itertools.SubsequenceMultiset | museum_solver/src/lib.rs:197 | A subsequence's elements are a sub-multiset of the sequence's |
| Itertools.CombinationsWithReplacement | navigation_compass_solver/src/navigation_compass.rs:34 | Every entry of `combinations_with_replacement(k)` has `k` elements, all drawn from the input |
| Itertools.CombinationsWithReplacementOfEmpty | navigation_compass_solver/src/navigation_compass.rs:34 | From an empty list, there are no combinations of size 1 or more |
| Itertools.DrawnFromElements | navigation_compass_solver/src/navigation_compass.rs:34 | A bag can be drawn from a list iff all its elements are in the list |
| Itertools.CombinationsWithReplacementComplete | navigation_compass_solver/src/navigation_compass.rs:34 | Every bag of `k` elements of the list is listed by `combinations_with_replacement(k)`, in some order |
| MuseumSolver.SkipIsHarmless | museum_solver/src/lib.rs:237-254 | A loop turn replaces the best result by the branch exactly when the branch is strictly cheaper, so the early `continue` (taken when the zone's own cost already reaches the best) loses nothing |
| MuseumSolver.BestIsLeast | museum_solver/src/lib.rs:231-255 | After the loop, `min_result` costs no more than the sentinel or than any branch it has seen |
| MuseumSolver.BestIsBranch | museum_solver/src/lib.rs:231-255 | After the loop, `min_result` is either still the sentinel or one of the branches, strictly below the sentinel |
| MuseumSolver.SearchBelowBranch | museum_solver/src/lib.rs:229-255 | The search result costs no more than any branch, whatever member triple it starts with |
| MuseumSolver.SearchIsOptimal | museum_solver/src/lib.rs:224-260 | No plan (one triple per zone while `can_next` holds) costs less than the search result |
| MuseumSolver.SearchPlan | museum_solver/src/lib.rs:224-260 | A result other than the sentinel comes from a plan, with that plan's cost and mapping |
| MuseumSolver.SearchFindsPlan | museum_solver/src/lib.rs:224-260 | If some plan costs less than the sentinel, the search succeeds and maps the current zone |
| MuseumSolver.PlanExists | museum_solver/src/lib.rs:188-211 | With distinct members and at least three of them, a plan exists |
| MuseumSolver.PlanIsDisjoint | museum_solver/src/lib.rs:200-211 | A plan staffs at most as many zones as there are: each triple has three of the state's members, triples are pairwise disjoint, and with distinct members each triple is distinct |
| MuseumSolver.PlanMappingShape | museum_solver/src/lib.rs:242-253 | With distinct zones, a plan's mapping has exactly the first `|p|` zones as keys and sends the i-th zone to the i-th triple |
| MuseumSolver.PlanCostIsMappingCost | museum_solver/src/lib.rs:242-253 | With distinct zones, a plan's cost is the sum of `calc` over its mapping's entries |
| MuseumSolver.SearchIsConsistent | museum_solver/src/lib.rs:224-260 | With distinct zones, a successful result maps the current zone, and only the state's zones, each to three of the state's members. The triples are pairwise disjoint, distinct when the members are, and the cost is the sum of `calc` over the mapping |
| MuseumSolver.MappingFromPlan | museum_solver/src/lib.rs:242-253 | The facts about a plan carry over to a mapping built from it |
| MuseumSolver.Cache.constructor | museum_solver/src/lib.rs:219 | The new memo table is empty and holds only correct entries |
| MuseumSolver.SolveInner | museum_solver/src/lib.rs:224-260 | Returns what a fresh computation gives; afterwards the memo table has an entry for the state, keeps every earlier key, and holds only correct entries, so a cache hit returns a fresh computation's result |
| MuseumSolver.Solve | museum_solver/src/lib.rs:214-222 | `None` iff there are fewer than three members or no zones; otherwise the search from the members and zones as given |
| CompassRing.WrapI8 | navigation_compass_solver/src/ring.rs:24 | Wrap-around into the `i8` range agrees with the input modulo 256 and is the identity inside the range |
| CompassRing.Rem6 | navigation_compass_solver/src/ring.rs:25 | Rust's `% 6` lies strictly between -6 and 6, agrees with the Euclidean remainder on non-negative input, and is non-positive and congruent on negative input |
| CompassRing.FixedUpRemainder | navigation_compass_solver/src/ring.rs:25-28 | The `+ 6` fix-up of a negative remainder gives the Euclidean remainder |
| CompassRing.RingValue.Rotated | navigation_compass_solver/src/ring.rs:23-29 | After a rotation the position is in 0..=5 and `num` and `direction` are unchanged |
| CompassRing.RotatedIsEuclidean | navigation_compass_solver/src/ring.rs:23-29 | Without `i8` overflow, a rotation sets the position to `(current + direction * num)` modulo 6 |
| CompassRing.IterateMovesBy | navigation_compass_solver/src/ring.rs:23-29 | From 0..=5 and without overflow, `k` rotations give `(current + k * direction * num)` modulo 6 |
| CompassRing.SixRotationsReturn | navigation_compass_solver/src/ring.rs:23-29 | From 0..=5 and without overflow, six rotations give back the same ring |
| CompassRing.Ring.constructor | navigation_compass_solver/src/ring.rs:15-21 | The new ring holds the given fields |
| CompassRing.Ring.Rotate | navigation_compass_solver/src/ring.rs:23-29 | The three in-place steps leave the ring equal to its value rotated once |
| CompassRing.Ring.Clone | navigation_compass_solver/src/ring.rs:1 | A fresh ring with the same fields |
| CompassLinkage.Linkage.ToU8 | navigation_compass_solver/src/linkage.rs:17-19 | The mask is at most 7 |
| CompassLinkage.NewReadsBits | navigation_compass_solver/src/linkage.rs:9-15 | `new` sets `inner` from bit 2, `middle` from bit 1 and `outer` from bit 0 |
| CompassLinkage.ToU8OfNew | navigation_compass_solver/src/linkage.rs:9-19 | `to_u8(new(m)) == m & 0b111`: bits above bit 2 are ignored |
| CompassLinkage.NewOfToU8 | navigation_compass_solver/src/linkage.rs:9-19 | `new(to_u8(l)) == l` for every linkage |
| CompassLinkage.ToU8SetsBits | navigation_compass_solver/src/linkage.rs:17-19 | A ring's bit is set in the mask iff the linkage turns that ring |
| CompassLinkage.PadZeros | navigation_compass_solver/src/linkage.rs:24 | The padded rendering is as long as the wider of the digits and the field width |
| CompassLinkage.DebugShape | navigation_compass_solver/src/linkage.rs:22-26 | The `{:03b}` rendering has three characters, each '0' or '1'; the first is '1' iff `inner`, the second iff `middle`, the third iff `outer` |
| Compass.ActionsCount | navigation_compass_solver/src/navigation_compass.rs:35 | Each linkage gives as many `Rotate` actions as it occurs in the list |
| Compass.CompassValue.RotatePart | navigation_compass_solver/src/navigation_compass.rs:12-18 | Rotating one part rotates that ring once and leaves the other two unchanged |
| Compass.ApplyActionRing | navigation_compass_solver/src/navigation_compass.rs:57-70 | An action rotates exactly the rings its linkage names, once each |
| Compass.ApplyActionsCounts | navigation_compass_solver/src/navigation_compass.rs:50-74 | After `do_actions`, each ring has been rotated once per action whose linkage turns it |
| Compass.CountPermutation | navigation_compass_solver/src/navigation_compass.rs:50-74 | The number of actions turning a ring depends only on the multiset of actions |
| Compass.OrderIndependent | navigation_compass_solver/src/navigation_compass.rs:50-74 | The result of `do_actions` depends only on the multiset of actions, not on their order |
| Compass.SolvesDependsOnMultiset | navigation_compass_solver/src/navigation_compass.rs:34 | Whether a list of linkages solves the compass depends only on the bag of linkages |
| Compass.FirstMatchIsSound | navigation_compass_solver/src/navigation_compass.rs:34 | What `find` returns is one of the candidates and passes the test; `None` iff no candidate passes |
| Compass.SearchFound | navigation_compass_solver/src/navigation_compass.rs:29-44 | A result of the loop from size `k` is a passing combination of a size from `k` to 100 |
| Compass.SearchIsFirst | navigation_compass_solver/src/navigation_compass.rs:29-44 | No combination of a size from `k` up to, but not including, the result's size passes |
| Compass.SearchNone | navigation_compass_solver/src/navigation_compass.rs:29-44 | When nothing is found from size `k`, no combination of a size from `k` to 100 passes |
| Compass.SearchIsComplete | navigation_compass_solver/src/navigation_compass.rs:29-44 | The loop from size `k` finds nothing iff no combination of a size from `k` to 100 passes |
| Compass.SolutionIsSound | navigation_compass_solver/src/navigation_compass.rs:29-44 | A result has 1 to 100 actions, each from an available linkage, and applying it solves the compass |
| Compass.SolutionIsMinimal | navigation_compass_solver/src/navigation_compass.rs:29-44 | No shorter list of available linkages, in any order, solves the compass |
| Compass.SolutionIsComplete | navigation_compass_solver/src/navigation_compass.rs:29-44 | `None` iff no list of 1 to 100 available linkages solves the compass |
| Compass.NoLinkagesNoSolution | navigation_compass_solver/src/navigation_compass.rs:29-44 | With no linkages the result is `None` |
| Compass.NavigationCompass.constructor | navigation_compass_solver/src/navigation_compass.rs:21-27 | The compass owns the three given rings |
| Compass.NavigationCompass.Clone | navigation_compass_solver/src/navigation_compass.rs:5 | Three fresh rings with the same values |
| Compass.NavigationCompass.RotateInner | navigation_compass_solver/src/navigation_compass.rs:76 | Rotates the inner ring once and nothing else |
| Compass.NavigationCompass.RotateMiddle | navigation_compass_solver/src/navigation_compass.rs:77 | Rotates the middle ring once and nothing else |
| Compass.NavigationCompass.RotateOuter | navigation_compass_solver/src/navigation_compass.rs:78 | Rotates the outer ring once and nothing else |
| Compass.NavigationCompass.Apply | navigation_compass_solver/src/navigation_compass.rs:56-70 | One turn of the loop in `do_actions` applies that action to the compass |
| Compass.NavigationCompass.DoActions | navigation_compass_solver/src/navigation_compass.rs:50-74 | Returns a fresh compass holding the actions applied in order; `self` is not changed |
| Compass.NavigationCompass.FindSolving | navigation_compass_solver/src/navigation_compass.rs:34-36 | The first combination, in order, whose actions solve the compass |
| Compass.NavigationCompass.TrySolve | navigation_compass_solver/src/navigation_compass.rs:29-44 | Returns exactly the search result, whose soundness, minimality and completeness are proved above |
| CompassCli.Reverse | navigation_compass_solver/src/main.rs:67 | The reversed string: the character at `i` is the one at `len - 1 - i` |
| CompassCli.MaskOfThree | navigation_compass_solver/src/main.rs:66-76 | A three-digit string gives the mask whose bit `2 - i` is the digit at position `i` |
| CompassCli.MaskIsSmall | navigation_compass_solver/src/main.rs:66-76 | Every parsed mask is at most 7 |
| CompassCli.ParseLinkageResult | navigation_compass_solver/src/main.rs:55-79 | A wrong length is refused first, then a character other than '0'/'1'. A string is accepted iff it has three such characters, and the linkage read is inner, middle, outer from the left |
| CompassCli.UsageExamples | navigation_compass_solver/src/main.rs:45-47 | "100" is inner only and "101" is inner and outer |
| CompassCli.ParseDebug | navigation_compass_solver/src/main.rs:52-81 | Parsing a linkage's Debug rendering gives back that linkage |
| CompassCli.ParseLinkagesResult | navigation_compass_solver/src/main.rs:52-81 | The list parses iff every argument does, and then length and order are kept; otherwise the error is that of the first argument refused |
| CompassCli.Rendered | navigation_compass_solver/src/main.rs:52-81 | One rendering per linkage, in order |
| CompassCli.ParseRendered | navigation_compass_solver/src/main.rs:52-81 | Parsing the renderings of a list of linkages gives back the list |
| BinFraming.ToBigEndian | bin_by_img/src/main.rs:59 | `to_be_bytes` gives four bytes |
| BinFraming.FromBigEndian | bin_by_img/src/main.rs:84 | `from_be_bytes` gives a number below 2^32 |
| BinFraming.FromToBigEndian | bin_by_img/src/main.rs:59-84 | Reading back the header written gives the length back |
| BinFraming.ToFromBigEndian | bin_by_img/src/main.rs:59-84 | Writing the number read gives the same four bytes |
| BinFraming.Resize | bin_by_img/src/main.rs:57 | `resize_with` gives exactly the requested length |
| BinFraming.RotatedRightAt | bin_by_img/src/main.rs:58 | Where each byte goes under `rotate_right(k)` |
| BinFraming.RotatedLeftAt | bin_by_img/src/main.rs:85 | Where each byte goes under `rotate_left(k)` |
| BinFraming.RotateLeftUndoesRight | bin_by_img/src/main.rs:58-85 | `rotate_left(k)` undoes `rotate_right(k)` |
| BinFraming.PixelsCoverContent | bin_by_img/src/main.rs:53-57 | At least `ceil((len + 4) / 4)` pixels give a buffer of at least `len + 4` bytes |
| BinFraming.FramedLayout | bin_by_img/src/main.rs:57-59 | The encoded buffer has the image's size. Its first four bytes are the big-endian length, the content follows, and every byte after it is 0 |
| BinFraming.UnframedReadsAfterHeader | bin_by_img/src/main.rs:81-90 | `decode` outputs the bytes after the header, up to the smaller of the header's length and the bytes available |
| BinFraming.UnframedLength | bin_by_img/src/main.rs:90 | The output is no longer than the buffer without its header, nor than the header's length |
| BinFraming.RoundTrip | bin_by_img/src/main.rs:50-90 | Decoding an encoded buffer gives the content truncated to its length modulo 2^32, so exactly the content when it is shorter than 2^32 bytes |
| BinFraming.RotateRight | bin_by_img/src/main.rs:58 | In place, the array becomes its contents rotated right by `k` |
| BinFraming.ShiftUp | bin_by_img/src/main.rs:58 | Every byte but the last `k` moves up `k` places, and the first `k` bytes keep their values |
| BinFraming.RotateLeft | bin_by_img/src/main.rs:85 | In place, the array becomes its contents rotated left by `k` |
| BinFraming.ShiftDown | bin_by_img/src/main.rs:85 | Every byte but the first `k` moves down `k` places, and the last `k` bytes keep their values |
| BinFraming.EncodeFrame | bin_by_img/src/main.rs:50-59 | Resizing, rotating and writing the header in a buffer gives the framed content |
| BinFraming.DecodeFrame | bin_by_img/src/main.rs:81-90 | Copying, reading the header, rotating and truncating gives the unframed bytes |

## Left out

- File, image and process I/O: reading and writing files, PNG encoding and decoding through the `image` crate (the RGBA8 bytes are taken to survive unchanged), argument parsing with `argh`, `tracing`, and printing.
- The `f64` computation of the image width and height in `encode`: `EncodeFrame` takes `width` and `height` as parameters. `PixelsCoverContent` states the covering condition the computation is meant to meet.
- BinFraming.EncodeFrame: `width * height` is taken as an unbounded product, because `u32` multiplication overflow would need a file of about 16 GiB. The length header is the length modulo 2^32, which is what `file_len as u32` gives.
- BinFraming.DecodeFrame: requires at least four bytes. For a shorter buffer the source panics on the header slice before anything is written.
- `Attribute` overflow in `i64` and `CalcResult` overflow in `u64`: stats and costs are unbounded integers.
- MuseumSolver.Search: with duplicate members the model can differ from the source. `next` removes every copy of a chosen member, so a child state can still pass `can_next` with fewer than three members left. Take members `[a, a, b, c, d, e]` and choose `[a, b, c]`: the child keeps `[d, e]`. In the source that child returns the `(u64::MAX, u64::MAX)` start value, and `result += next.0` overflows. A debug build panics. A release build wraps, and the wrapped branch can win the strict comparison. In the model that addition is unbounded, so such a branch is never chosen. With distinct members the difference cannot arise, and `PlanExists` and `NextOfCombination` assume distinct members.
- The starting value `(u64::MAX, u64::MAX)` of `min_result` is kept as a sentinel. MuseumSolver.SearchFindsPlan therefore needs some plan cheaper than the sentinel before it promises that the current zone is mapped. With real-sized inputs every plan is cheaper.
- MuseumSolver.SearchIsConsistent and MuseumSolver.PlanCostIsMappingCost: the cost equals the sum of `calc` over the mapping only for distinct zones. With two equal zones, `HashMap::insert` keeps one entry.
- The disjointness of triples in MuseumSolver.PlanIsDisjoint is stated element-wise. Distinctness inside a triple needs distinct members: `next` removes every copy of a chosen member, so duplicates are collapsed.
- `HashMap` iteration order and hashing: the mapping is a Dafny `map` and the memo table is a `map` field of a class.
- `Attribute`'s `Add`, `Sub` and `mul_by` take `self` by value and return it, so they are modelled as functions on a datatype. The `-=` updates of `req` are the loop of `MuseumCost.Calc`. The `+=` updates of the `u64` counters `require` and `overflow` are its final step.
- The `itertools` crate is not part of this model: `combinations` and `combinations_with_replacement` are specified as functions that list the candidates in the library's order.
- CompassRing.RotatedIsEuclidean, CompassRing.IterateMovesBy and CompassRing.SixRotationsReturn hold only while `i8` arithmetic does not overflow. A debug build panics on overflow. The model follows a release build, which wraps, and `Ring.Rotate` models the wrapping exactly.
- Compass.NavigationCompass.constructor: requires three distinct ring objects. In the source the compass owns its rings by value, so they can never be shared.
- `Debug` and `Display` output other than the `{:03b}` rendering of a linkage, and the `serde` derives.
- The `main` functions, the hard-coded museum data set, the wasm shim, the web UI and the two waveform video programs, which are I/O, UI or floating-point code.
