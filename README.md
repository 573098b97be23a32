# Attendance dashboard projector, in Dafny

The attendance dashboard is a single-page calculator. It takes four numbers: classes attended, classes held so far, a target percentage and a number of upcoming classes. It shows:

- the current attendance percentage;
- whether that percentage meets the target;
- one of two predictions: how many classes in a row must still be attended to reach the target (when below it), or how many classes in a row can be missed while staying at or above it (when at or above it);
- a four-bar projection chart: current, target, "attend all upcoming" and "miss all upcoming".

This project models that arithmetic and proves what it computes.

- `Percentage.dfy` (module `Percentage`): the percentage `(attended / total) * 100` as an exact `real`. The eligibility test `MeetsTarget` is stated without division, as `100 * attended >= target * total`. `MeetsTargetIff` proves the script's real comparison equal to it.
- `Searches.dfy` (module `Searches`): the two counting loops, as methods with `while` loops whose guards are the source's percentage comparisons.
  - The classes-needed result is proved to be the least `n` after which the target is reached (`IsLeastNeeded`). When the target is below 100 it also equals a closed-form reference, `NeededFormula`.
  - The classes-can-miss result (including the final decrement) is proved to be the largest `m` that still keeps the target (`IsMostMissable`). It also equals the closed form `MissFormula`.
  - Lemmas give uniqueness, monotonicity in the number attended, the target-100 divergence, and the worked examples.
- `Dashboard.dfy` (module `Dashboard`): one evaluation of the script, `Evaluate`, returning the values the page shows, and the projection chart, `Projection`. Lemmas tie the "attend all" and "miss all" bars to the two prediction counts.

Inputs follow the script's widget bounds: attended ≥ 0, 1 ≤ target ≤ 100, upcoming ≥ 1. The script guards everything with `if total > 0`, so `Evaluate` accepts any total and returns `None` when it is not positive. The classes-needed loop never stops when the target is 100 and fewer classes were attended than held. The script has no guard for that case, so it is a precondition (`target < 100 || attended >= total`), and `FullTargetUnreachable` proves that no answer exists there.

Points where the script's behaviour is worth stating outright:

- The script has no iteration cap (streamlit_app.py:72-75); the target-100 case is a precondition.
- A non-positive total shows nothing (streamlit_app.py:45), so `Evaluate` returns `None`.
- Called below target, the can-miss loop as written returns -1 (streamlit_app.py:83-89). The script never calls it there; `ClassesCanMiss` keeps the -1.

## Model

| member | source | states |
|---|---|---|
| `Percentage.MeetsTargetIff` | streamlit_app.py:46-55 | the eligibility test `attended/total*100 >= target` holds exactly when `100*attended >= target*total` |
| `Percentage.PercentAntitoneInTotal` | streamlit_app.py:102-105 | with attended ≥ 0, a larger total never gives a larger percentage (so the "miss all" bar is at most the current one) |
| `Percentage.PercentDifference` | streamlit_app.py:104-105 | percentages over the same total subtract as their counts: (a+f)/d·100 − a/d·100 = f/d·100 |
| `Searches.AttendStepIff` | streamlit_app.py:72-75 | after k attended classes the target is met iff k·(100−target) covers the initial gap target·total − 100·attended |
| `Searches.MissStepIff` | streamlit_app.py:86-88 | after k missed classes the target is still met iff k·target fits in the surplus 100·attended − target·total |
| `Searches.ClassesNeeded` | streamlit_app.py:68-75 | the loop result is the least n ≥ 0 with the target met after n attended classes, every smaller count below it; it is ≥ 1 when currently below target, and equals the closed form when target < 100 |
| `Searches.ClassesCanMiss` | streamlit_app.py:82-89 | the result after the decrement is the largest m ≥ −1 such that every count of misses up to m keeps the target and m+1 does not; it is ≥ 0 exactly when the target is met now, and equals the closed form |
| `Searches.NeededFormulaIsLeast` | streamlit_app.py:68-75 | the rounded-up gap divided by 100 − target is the least number of classes needed |
| `Searches.MissFormulaIsMost` | streamlit_app.py:82-89 | floor(100·attended/target) − total, but at least −1, is the most classes that can be missed |
| `Searches.LeastNeededUnique` | streamlit_app.py:68-75 | at most one count is the least number needed |
| `Searches.MostMissableUnique` | streamlit_app.py:82-89 | at most one count is the most that can be missed |
| `Searches.FullTargetUnreachable` | streamlit_app.py:72 | with target 100 and attended < total, no count of attended classes reaches the target, so the loop guard never turns false and no least count exists |
| `Searches.AttendMonotone` | streamlit_app.py:72-75 | once the target is reached by attending, attending more keeps it reached (target ≤ 100) |
| `Searches.MissMonotone` | streamlit_app.py:86-88 | once the target is lost by missing, missing more keeps it lost (target ≥ 1) |
| `Searches.NeededAntitoneInAttended` | streamlit_app.py:68-75 | more classes attended, same total and target: the classes-needed count does not grow |
| `Searches.CanMissMonotoneInAttended` | streamlit_app.py:82-89 | more classes attended, same total and target: the classes-can-miss count does not shrink |
| `Searches.NeededExample` | streamlit_app.py:68-75 | 60 of 100 attended with a 75% target needs exactly 60 classes (120 of 160 is 75%) |
| `Searches.CanMissExampleAtTarget` | streamlit_app.py:82-89 | 75 of 100 attended with a 75% target can miss exactly 0 classes |
| `Searches.CanMissExampleFull` | streamlit_app.py:82-89 | 20 of 20 attended with a 75% target can miss exactly 6 classes |
| `Dashboard.Projection` | streamlit_app.py:99-106 | four bars in chart order, each value stated: current a/t·100, target, attend all (a+f)/(t+f)·100, miss all a/(t+f)·100; miss-all ≤ current, miss-all ≤ attend-all, and attend-all − miss-all = upcoming/(total+upcoming)·100 |
| `Dashboard.Evaluate` | streamlit_app.py:45-106 | nothing is shown when total ≤ 0; otherwise the current percentage, the eligibility flag matching `100·attended >= target·total`, exactly one prediction (classes needed, ≥ 1 and least, when below; classes can miss, ≥ 0 and largest, when at or above) and the projection |
| `Dashboard.AttendAllMeetsIffEnough` | streamlit_app.py:104 | the "attend all" bar's percentage (a+f)/(t+f)·100 reaches the target iff the upcoming classes are at least the classes-needed count; also stated in cross-multiplied form |
| `Dashboard.MissAllMeetsIffWithin` | streamlit_app.py:105 | the "miss all" bar's percentage a/(t+f)·100 stays at the target iff the upcoming classes are at most the classes-can-miss count; also stated in cross-multiplied form |

## Left out

- Page setup, headers, input widgets, metric cards, success/error banners and the bar chart (streamlit_app.py:7-38, 49-58, 76-78, 90-92, 97, 110, 115-116): rendering and widget state. The widget bounds become preconditions.
- The pandas DataFrame built for the chart (streamlit_app.py:109): a foreign library call. The chart data is the `Projection` sequence. Its labels are the `Scenario` constructors, and the number in the labels `"<n> Attend All"` and `"<n> Miss All"` is carried as the constructor's argument.
- Float formatting (`:.2f`) and IEEE double rounding of the divisions: percentages are exact rationals (`real`). An input whose float quotient rounds across the target compares differently in the script. For example, 57 attended of 100 with target 57: the double `57 / 100 * 100` is 56.99999999999999, so the script shows the below-target banner and `needed = 1`, while the model says the target is met and `canMiss = 0`.
- The target-100 divergence of the classes-needed loop is excluded by precondition, not modelled as an error. The code has no iteration cap. A target below 1, for which the can-miss loop would not stop, is excluded by the widget bound.

