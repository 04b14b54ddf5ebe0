# Double-stub matching: root collection and de-duplication

A Dafny model of the legacy script `double_stub.py`, which designs a
double-stub impedance match for a transmission line. The script's computation
has two stages:

- **Stage 1.** It scans 499 starting guesses `0.001 * i` with a root finder
  for the first stub's length. It keeps every result strictly inside
  (0, 0.5) wavelengths that also differs by more than `precision` from the
  value kept just before it. The list `z` starts with a sentinel `0.0`, which
  `z.pop(0)` then removes.
- **De-duplication.** Two passes remove near-duplicates. The first pass drops
  every later entry within `precision` of `z[0]`, and the second does the same
  for `z[1]`. Each pass collects the matching positions in ascending order,
  sorts them with `sort(reverse=True)` and pops them one by one.
- **Stage 2.** For each stage-1 root, the script scans the same guesses with a
  second root finder at the fixed tolerance `1e-8`. It keeps every result in
  the window, with no adjacency test. It then pops the sentinel, the first
  accepted value and the last accepted value, and removes duplicates the same
  way.
- **Report.** The script prints `z[0], w[0]` and `z[1], w[1]`.

The model also covers `desplazamiento`, the lossless-line transform of an
admittance, over complex numbers written as pairs of reals. The angle enters
only through its cosine and sine, which are parameters.

The model is organised in five modules:

- `Results`: the Python exceptions the script can raise, and `Option` for the
  non-finite values numpy produces instead of raising.
- `PyList`: Python's list operations. This covers `pop(i)` with negative
  indices and its two `IndexError` cases, `s[i]`, and `sort(reverse=True)` as
  an insertion sort. It also defines the position filter `Without`.
- `Duplicates`: the two removal passes.
- `Stages`: the two scans, the stage-2 trim, the report and the whole run.
- `Transform`: complex arithmetic and `desplazamiento`.

The root finders (`scipy.optimize.fsolve` applied to the script's residual
functions) are function-valued parameters of the model:

- `StubOneFinder` maps an initial guess and `xtol` to the value the script
  reads as `sol[0]`.
- `StubTwoFinder` also takes the stage-1 root.

Every property below therefore holds for any root finder.

The model states what the code does, including where a reader might expect
something else:

- A reader might expect any two accepted roots within `precision` to count
  as one root. The script instead compares only against the first and the
  second retained root, so later duplicates survive
  (`Duplicates.LaterDuplicatesSurvive`) and the result can hold more than two
  roots.
- A reader might expect a run that finds no roots to say so. The script
  instead raises `IndexError`, in one of three places:
  - the second stage-2 `w.pop(0)` (line 131), when no stage-2 value falls in
    the window, because the list then holds only the sentinel;
  - the stage-2 `w.pop(-1)` (line 132), when exactly one stage-2 value falls
    in the window;
  - the final indexing (lines 151-152), when either list holds fewer than two
    entries.
- A reader might expect a root to be kept only when the root finder converged
  and the residual is small. The script checks only the window, plus the
  adjacency test in stage 1.
- The stage-1 adjacency test also runs against the sentinel `0.0`. A root in
  (0, `precision`] is therefore turned away while nothing else has been kept,
  and the later `z.pop(0)` removes only the sentinel
  (`Stages.SmallRootLost`).
- A reader might expect the i-th stage-1 root to be paired with its own
  stage-2 root. The script pairs `z[i]` with `w[i]`, where `w` holds the
  stage-2 roots of every stage-1 root together, minus the first and last
  accepted ones.

## Model

| member | source | states |
|---|---|---|
| PyList.Pop | double_stub.py:130-132 | `pop(i)` succeeds exactly when `-len <= i < len` and then leaves the list without the element at `i` (counted from the end when `i` is negative); on an empty list it raises the empty-list `IndexError`, otherwise the out-of-range one |
| PyList.Get | double_stub.py:151-152 | `s[i]` succeeds exactly when `-len <= i < len` and returns the element at `i`, counted from the end when `i` is negative; otherwise it raises the list-index `IndexError` |
| PyList.PopEnds | double_stub.py:102 | `pop(0)` leaves the tail of the list and `pop(-1)` leaves everything but the last element |
| PyList.SortDescending | double_stub.py:107 | `sort(reverse=True)` yields a non-increasing list with the same elements and multiplicities |
| PyList.NonIncreasingUnique | double_stub.py:107 | only one non-increasing arrangement of a multiset of integers exists, so any correct descending sort gives the same list |
| PyList.SortOfAscendingIsReverse | double_stub.py:104-107 | reverse-sorting the ascending index list that the loop collects gives its reversal, which is strictly descending |
| PyList.PopAllDescending | double_stub.py:108-109 | popping in-range positions in strictly descending order never raises and removes exactly those positions, keeping the survivors in order |
| PyList.PopAll | double_stub.py:108-109 | popping the given indices one by one stops at the first `IndexError`, which is one of the two `pop` errors; a run that raises nothing leaves one element fewer per index |
| PyList.WithoutIsSubsequence | double_stub.py:108-109 | removing positions keeps a subsequence that is never longer than the input |
| Duplicates.NearIndices | double_stub.py:104-106 | the index loop collects, in ascending order, exactly the positions after `p` whose entry is within `precision` of `z[p]` |
| Duplicates.PopNearIsFilter | double_stub.py:103-109 | collecting, reverse-sorting and popping those positions equals removing them by position, and no `pop` raises |
| Duplicates.DedupPass | double_stub.py:103-109 | one pass keeps `z[..p+1]` and is a no-op on lists of length at most `p+1`; it returns a subsequence with nothing after position `p` within `precision` of `z[p]` |
| Duplicates.Dedup | double_stub.py:103-116 | after both passes the head is unchanged and nothing after it is within `precision` of it; nothing after position 1 is within `precision` of `z[1]`; the result is a subsequence |
| Duplicates.DedupKeepsFar | double_stub.py:103-116 | with `z[j]` the first entry after the head that is not the same root as the head, every entry that is the same root as neither the head nor `z[j]` survives both passes |
| Duplicates.SecondPassKeepsFirst | double_stub.py:110-116 | the second pass preserves the first pass's guarantee about `z[0]` |
| Duplicates.DedupCollapsesCluster | double_stub.py:103-109 | a list whose entries are all within `precision` of the first collapses to that single value |
| Duplicates.DedupKeepsDistinct | double_stub.py:103-116 | a list whose entries are pairwise at least `precision` apart passes through unchanged |
| Duplicates.LaterDuplicatesSurvive | double_stub.py:110-116 | two copies of a third root both survive: only positions 0 and 1 are compared against |
| Stages.Guesses | double_stub.py:93-94 | there are 499 starting guesses, all inside the window and strictly increasing |
| Stages.StubOneCandidates | double_stub.py:93-96 | the stage-1 scan hands the accept filter 499 values, the k-th found from the guess `0.001 * k` with `xtol = precision` |
| Stages.CollectStubOne | double_stub.py:91-98 | `z` starts with the sentinel `0.0` and holds at most one value per candidate |
| Stages.CollectStubOneFacts | double_stub.py:91-98 | after the sentinel, every kept value lies in (0, 0.5); neighbours, the sentinel included, differ by more than `precision`; the kept values are a subsequence of the candidates |
| Stages.CollectStubOneCovers | double_stub.py:97-98 | every in-window candidate is kept in `z` or lies within `precision` of an entry of `z`, where the sentinel `0.0` counts as an entry |
| Stages.AcceptedStubOneCovers | double_stub.py:97-102 | after `z.pop(0)`, every in-window candidate is kept or within `precision` of a kept root, unless it lies at most `precision` above zero |
| Stages.SmallRootLost | double_stub.py:97-102 | a single root `0.005` with `precision` `0.01` is turned away by the test against the sentinel, so no stage-1 root remains |
| Stages.AcceptedStubOne | double_stub.py:91-102 | after `z.pop(0)`, all values are in the window and the first exceeds `precision`; neighbours differ by more than `precision` and the values are a subsequence of the candidates |
| Stages.StubOneRoots | double_stub.py:91-116 | the stage-1 roots lie in the window, the first exceeds `precision`, and the de-duplication guarantees hold; they are a subsequence of the candidates |
| Stages.StubOneRepeatRemoved | double_stub.py:97-109 | a root found again after another one passes the adjacency test, and the first removal pass then drops it |
| Stages.StubTwoCandidates | double_stub.py:122-127 | the stage-2 scan produces 499 values per stage-1 root, in scan order, each from the finder at tolerance `1e-8` |
| Stages.CollectStubTwo | double_stub.py:122-129 | `w` starts with the sentinel `0.0` and holds at most one value per candidate |
| Stages.CollectStubTwoFacts | double_stub.py:122-129 | after the sentinel, every kept stage-2 value lies in the window and the kept values are a subsequence of the candidates |
| Stages.CollectStubTwoKeepsWindow | double_stub.py:122-129 | after the sentinel, each window value occurs exactly as often as among the candidates, and nothing outside the window occurs |
| Stages.CollectStubTwoNonEmpty | double_stub.py:122-129 | the stage-2 list holds a value besides the sentinel exactly when some candidate lies in the window |
| Stages.CollectStubTwoPair | double_stub.py:122-132 | the stage-2 list holds at least two values besides the sentinel exactly when two candidates lie in the window |
| Stages.TrimStubTwo | double_stub.py:130-132 | the three pops succeed exactly when the list has at least three entries and leave `w[2..len-1]`; otherwise they raise the empty-list `IndexError` |
| Stages.TrimFailingPop | double_stub.py:130-132 | a failing trim raises at the second `pop(0)` when the list holds only the sentinel, and at `pop(-1)` when one value follows the sentinel |
| Stages.TrimKeepsMiddle | double_stub.py:122-132 | when two candidates lie in the window the trim succeeds, and each window value occurs in the trimmed list as often as among the candidates, less one for the first and one for the last accepted value |
| Stages.StubTwoRoots | double_stub.py:122-146 | stage 2 fails, with the empty-list `IndexError`, exactly when fewer than two candidates lie in the window; otherwise its roots lie in the window, meet the de-duplication guarantees and are a subsequence of the candidates |
| Stages.StubTwoDropsEnds | double_stub.py:130-132 | three window candidates leave only the middle one, and a single one makes the run fail |
| Stages.Reported | double_stub.py:150-152 | the report succeeds exactly when both lists hold two entries, pairing `z[0]` with `w[0]` and `z[1]` with `w[1]`; otherwise it is a list-index `IndexError` |
| Stages.Run | double_stub.py:91-152 | a completed run reports four window lengths; the first stub-1 length exceeds `precision`; the two stub-1 lengths differ by at least `precision`, and so do the two stub-2 lengths; the script never fails with an out-of-range `pop` |
| Transform.NormSq | double_stub.py:46 | the squared modulus is non-negative and zero only for `0j` |
| Transform.Div | double_stub.py:46 | complex division has a quotient exactly when the divisor is non-zero, and that quotient times the divisor gives back the dividend |
| Transform.Reciprocal | double_stub.py:38 | `1 / z` raises `ZeroDivisionError` exactly for `0j`; otherwise the result times `z` is 1 |
| Transform.Displace | double_stub.py:41-47 | the transform is defined exactly when `cos + j sin y` is non-zero, and its result times that denominator is `yl cos + j y0 sin` |
| Transform.DisplaceZeroDistance | double_stub.py:41-47 | at zero distance (cos 1, sin 0) the transform returns its input |
| Transform.DisplaceMatched | double_stub.py:41-47 | an admittance equal to the line admittance comes back unchanged for every cos/sin pair with a non-zero denominator |
| Transform.MatchedLoadStaysMatched | double_stub.py:36-47 | a load impedance equal to the real line impedance `z0` has admittance `1 / z0`, and every distance leaves it unchanged |
| Transform.MulCancel | double_stub.py:46 | multiplying by a non-zero complex number is injective, which makes the quotient unique |

## Left out

- The root finder itself is not modelled: `scipy.optimize.fsolve` and the residuals `funcion` and `func` with `stub` and `cot` (double_stub.py:49-89) are a foreign library over floating-point trigonometry. They are replaced by the finder parameters; `StubOneFinder` receives `xtol = precision` and `StubTwoFinder` receives the fixed `1e-8`.
- The distance `l`, the spacing `d` and the other inputs of the residuals are not modelled. They reach the residuals through module globals and are folded into the finder parameters.
- The parse of the impedance string (double_stub.py:34-35) is a library string parse and is left out. The load enters the model as a complex number.
- `sys.exit` for an unknown stub type (double_stub.py:64) and the console output (double_stub.py:150-153) are I/O. The report is the values the script would print.
- Floating-point rounding and non-finite values are not modelled: every quantity is an exact real. A comparison involving `nan`, which Python treats as false, has no counterpart here.
- Transform.Displace: numpy gives a non-finite value, not an exception, when the denominator vanishes. The model returns `None` there and says nothing about which non-finite value numpy would produce.
- The cosine and sine of `2 pi l` are parameters of `Transform.Displace`. Nothing in the model relates them to one angle.
- The object-oriented matching engine, the frequency sweep, bandwidth and group delay, and solution ranking are not part of this model. Their source is not among the files modelled.
- `src/double_stub/visualization.py` (Smith chart and response plots), `double_stub_cli.py` (import plumbing) and the example scripts are rendering and drivers, and are left out.
