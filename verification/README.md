# ODE solver core: equation formatting and the Euler / RK4 table

This project models two parts of `app.py`, the Tkinter application that
solves ordinary differential equations:

- **`formatear_ecuacion`** turns the user's notation for an ODE into input for
  the computer-algebra system. It protects `y''` and `y'` with placeholders.
  It rewrites every standalone `y` that is not already applied into `y(x)`.
  Then it expands the placeholders into `Derivative(y(x), x, x)` and
  `Derivative(y(x), x)`. Module `EquationFormat` (`equation_format.dfy`)
  gives the five steps as written (`FormatEquation`). It also gives a
  one-pass reference (`Translate`: lex the derivative marks, mark the
  standalone names, spell the tokens). It proves that the two agree on every
  text without a capital `Y`.
- **The fixed-step engine of the "Método de Euler y RK4" panel**
  (`generar_tabla` and `graficar`). It covers:
  - the step count `int((b - a)/h)` and the node grid;
  - the forward-Euler and classical Runge-Kutta loops;
  - the error row built at each node;
  - the table widget that is cleared and refilled.

  Module `FixedStep` (`fixed_step.dfy`) holds:
  - the specification functions (`StepCount`, `Grid`, `Trajectory`,
    `MakeRow`, `Filled`, `TableAfter`);
  - the loops as methods proved against them (`EulerLoop`, `Rk4Loop`,
    `JointLoop`, `PlotSeries`);
  - the lemmas.

  Module `TablePanel` (`table_panel.dfy`) models the `ttk.Treeview` as a
  class whose `rows` the handler deletes and inserts.

Numbers are exact reals that stand in for Python floats. The field `f(x, y)`
and the exact solution `y_real(x)` are evaluated from user text, and that
evaluation can raise. Both are total functions that return `Raised` or
`Value(v)`. A raise anywhere aborts the handler. That is the `None` /
`failed` outcome. Python's `int()` truncates toward zero and is modelled by
`Trunc`. A zero step raises `ZeroDivisionError` and is modelled by
`StepCount` returning `None`. A negative step count makes `range` empty and
is modelled by `Passes`.

Three details of the table follow `app.py` as written:
- there is no fine-step reference trajectory; the exact value of every row is
  the user's `y_real` at the node (app.py:176, 201);
- `err_rel` is `0` when `y_real` is `0` (app.py:203);
- the `f` column is `f(x_i, y_euler[i])`, evaluated at the current node
  (app.py:206).

## Model

| member | source | states |
|---|---|---|
| EquationFormat.FormatEquation | app.py:18-24 | The five steps in source order: protect `y''`, protect `y'`, the `re.sub` of standalone `y`, expand `__Y2__`, expand `__Y1__`. A definition; what it computes is stated by `FormatEquationIsTranslate`, `FormatEquationUnchanged` and `SecondMarkBecomesSecondDerivative`. |
| EquationFormat.ReplaceAll | app.py:19-23 | `str.replace`: a left-to-right scan that replaces non-overlapping occurrences and copies everything else. A definition; `ReplaceAbsent` and the `Expand`/`ProtectMarks` lemmas state what it does. |
| EquationFormat.SubstituteY | app.py:21 | `re.sub(r"\by\b(?!\()", "y(x)", ...)` as a scan carrying whether the previous character is a word character. The output is never shorter than the input; `SubstituteYMatchesRegex` states which positions it rewrites. |
| EquationFormat.SubstituteYMatchesRegex | app.py:21 | The scan `SubstituteY` rewrites a position to `y(x)` exactly when it holds a `y` with a word boundary on both sides that is not followed by `(` (`IsStandaloneY`). Every other character is copied. |
| EquationFormat.SubstituteYByPosition | app.py:21 | From any position on, the scan's output is the position-by-position rewrite. It depends only on whether the previous character is a word character. |
| EquationFormat.SubstituteYWithoutY | app.py:21 | A text with no `y` passes the `re.sub` step unchanged. |
| EquationFormat.FormatEquationIsTranslate | app.py:18-24 | For every text without a capital `Y`, the five-step rewrite equals the one-pass reference. `y''` is read as a second derivative and `y'` as a first derivative. Only standalone `y` names become `y(x)`. |
| EquationFormat.FormatEquationUnchanged | app.py:18-24 | A text with no `y` and no `__Y1__`/`__Y2__` substring comes back unchanged. |
| EquationFormat.SecondMarkBecomesSecondDerivative | app.py:19-23 | For a text without a capital `Y`, every `y''` is lexed as one second-derivative token. The output is that token's spelling `Derivative(y(x), x, x)`, never a first derivative followed by a stray prime. |
| EquationFormat.SecondMarkIsOneToken | app.py:19-20 | Wherever `y''` occurs it becomes a single token, because the longer mark is protected before the shorter one. |
| EquationFormat.LexConcat | app.py:19-20 | Lexing splits at every boundary not followed by a prime: no derivative mark straddles it, so the text lexes piece by piece. |
| EquationFormat.ProtectMarks | app.py:19-20 | The two `replace` calls for `y''` and `y'` spell exactly the lexed tokens, with the placeholders. |
| EquationFormat.NameTokens | app.py:21 | On the placeholder text, the `re.sub` step acts exactly as marking standalone names on the tokens. A placeholder counts as word characters on both sides. |
| EquationFormat.HolderKeepsName | app.py:21 | A placeholder passes the `re.sub` step unchanged. The scan then continues after a word character. |
| EquationFormat.ExpandSecond | app.py:22 | Replacing `__Y2__` expands exactly the second-derivative tokens and nothing else. |
| EquationFormat.ExpandFirst | app.py:23 | Replacing `__Y1__` expands exactly the first-derivative tokens and nothing else. |
| EquationFormat.ReplaceAbsent | app.py:19-23 | `str.replace` of a pattern that does not occur returns the text unchanged. |
| EquationFormat.MarkNamesOnlyNames | app.py:21 | Marking changes a token only by turning a plain `y` into a name. |
| FixedStep.Trunc | app.py:178 | `int()` of a float truncates toward zero. For a non-negative quotient this is the floor. For a negative one it is the ceiling. |
| FixedStep.StepCount | app.py:178 | `n_pasos` is missing exactly when `h == 0` (the division raises). For a non-negative quotient it is the largest integer not above `(b - a)/h`. |
| FixedStep.Passes | app.py:183 | `range(n)` runs `n` passes, or none when `n` is negative. |
| FixedStep.Grid | app.py:179 | `x_vals` has `n_pasos + 1` entries `a + i*h`, or none when `n_pasos + 1` is not positive. |
| FixedStep.GridCoversInterval | app.py:178-179 | For `h > 0` and `a <= b`: `n_pasos` is `floor((b - a)/h)`; the grid has `n_pasos + 1` nodes starting at `a`; consecutive nodes are exactly `h` apart; no node passes `b`; `b` minus the last node is less than `h`. |
| FixedStep.EulerStep | app.py:185 | One Euler step raises exactly when `f(x, y)` raises; otherwise it is `y + h*f(x, y)` (`EulerRecurrence`). |
| FixedStep.Rk4Step | app.py:190-195 | One classical Runge-Kutta step: four slope evaluations in order, any of which may raise. A definition; `Rk4StepFromSlopes` states its value and `Rk4Pass` the order of the evaluations. |
| FixedStep.Rk4StepFromSlopes | app.py:190-195 | When the four evaluations give `k1..k4`, the Runge-Kutta step is `y + (h/6)(k1 + 2k2 + 2k3 + k4)`. The slopes are taken at the points of lines 190-193. |
| FixedStep.Trajectory | app.py:182-195 | After `m` passes the list has `m + 1` entries and starts at `y0`. |
| FixedStep.TrajectoryIsRecurrence | app.py:182-195 | The list after `m` passes is exactly the list of `m + 1` values that starts at `y0` and satisfies the scheme's step at every node, in both directions. |
| FixedStep.EulerRecurrence | app.py:182-185 | Each Euler entry is `y_i + h*f(x_i, y_i)`, and every such slope evaluation succeeded. |
| FixedStep.Rk4Recurrence | app.py:188-195 | Each Runge-Kutta entry is one classical RK4 step from the previous entry at the previous node. |
| FixedStep.FailurePersists | app.py:182-195 | Once an evaluation of `f` raises, no later pass produces a list. |
| FixedStep.ConstantFieldIsLinear | app.py:182-195 | For a constant field `c`, both schemes give exactly `y0 + i*h*c` at node `i`. |
| FixedStep.EulerPass | app.py:185 | One pass of the Euler loop evaluates the slope at the last node and value and yields the Euler step, or raises when that evaluation raises. |
| FixedStep.EulerLoop | app.py:182-185 | The `append` loop computes the Euler trajectory after `n_pasos` passes, or fails. |
| FixedStep.Rk4Pass | app.py:190-195 | One pass evaluates `k1..k4` in turn and yields the Runge-Kutta step, or raises with the first slope that raises. |
| FixedStep.Rk4Loop | app.py:188-195 | The `append` loop computes the Runge-Kutta trajectory after `n_pasos` passes, or fails. |
| FixedStep.JointLoop | app.py:226-235 | The single loop of `graficar` yields the same two lists as the two separate loops of `generar_tabla`. It fails exactly when either of them does. |
| FixedStep.MakeRow | app.py:201-207 | A row is built exactly when `y_real` and `f` both evaluate at the node. It shows the node index, `x`, both approximations, `f(x_i, y_euler[i])` and `y_real`. `err_abs = |y_real - y_euler|` is non-negative and zero only when the two agree. `err_rel * |y_real| = err_abs` when `y_real != 0`, and `err_rel = 0` otherwise. `err_pct = 100 * err_rel`. |
| FixedStep.ErrorsIgnoreRk4 | app.py:202-204 | The errors of a row do not depend on the Runge-Kutta value. It is only displayed. |
| FixedStep.Filled | app.py:200-207 | The insert loop inserts rows for the first nodes in order, each equal to `MakeRow` there. It completes exactly when it inserted one row per node. When it stops early, the row at the next node could not be built. |
| FixedStep.FilledStops | app.py:200-209 | A row that raises ends the loop, keeping the rows inserted before it. |
| FixedStep.TableAfter | app.py:178-209 | The rows and error report `generar_tabla` leaves, given the rows before. When no error is reported the step is non-zero and there is one row per grid node. `FailureBeforeClearKeepsRows`, `CompleteTable` and `PartialTable` state the three outcomes. |
| FixedStep.FailureBeforeClearKeepsRows | app.py:178-199 | A zero step, or a field that raises in either stepping loop, reports an error and leaves the old rows untouched. The clear happens only after both lists exist. |
| FixedStep.CompleteTable | app.py:178-207 | On a positive step over `a <= b` with every evaluation succeeding, the table holds exactly `n_pasos + 1` rows in node order, with none of the old rows. Row `i` shows node `a + i*h`, the Euler and RK4 values there, `f` at the Euler value, and `y_real`. |
| FixedStep.PartialTable | app.py:200-209 | When a row raises during insertion, the table holds exactly the rows of the nodes before it, and the failing node's row could not be built. |
| FixedStep.ExactValues | app.py:237 | `[y_real(x) for x in x_vals]` exists exactly when `y_real` evaluates at every node, and then lists those values. |
| FixedStep.PlotSeries | app.py:211-251 | `graficar` fails exactly when the step is zero, the step count is negative (the grid is empty while both trajectories hold `y0`, and `plt.plot` rejects series of unequal length), a stepping loop raises, or `y_real` raises at a node. Otherwise it plots the grid, the exact values and the two trajectories, all of the same length. |
| FixedStep.ConstantFieldExtends | app.py:182-195 | Under a constant field `c`, a pass that starts from the line `y0 + i*h*c` extends it by exactly one more point. |
| FixedStep.LineNext | app.py:182-195 | Supporting fact for the constant-field result: one more point of the line `y0 + i*d` lies `d` above the last. |
| TablePanel.Panel.Insert | app.py:205-207 | `insert("", "end", ...)` appends one row at the end. |
| TablePanel.Panel.Clear | app.py:198-199 | Deleting every child one at a time leaves the table empty. |
| TablePanel.Panel.InsertRows | app.py:200-207 | The insert loop appends `Filled`'s rows after the rows already shown. It reports failure exactly when a row raised. |
| TablePanel.Panel.GenerateTable | app.py:166-209 | The handler leaves the table and error report that `TableAfter` describes: the old rows on an early failure; all rows, or the rows before a failing one, otherwise. |

## Left out

- Parsing the entry fields with `float()` (app.py:168-173, 213-218). The model starts from parsed reals. A parse error raises before anything else happens.
- `eval` of the user's formulas (app.py:175-176, 220-221). `f` and `y_real` are arbitrary functions that may raise. Results that are not numbers (complex values, arrays) are not modelled.
- Floating-point rounding, overflow to `inf`/`nan`, `int()` of `inf`/`nan`, and the `round(...)` display formatting (app.py:205-207). Exact reals are used instead.
- The text of the error messages (app.py:209, 251). Only the fact that an error is reported is modelled (`failed`).
- The matplotlib drawing (app.py:239-248). `PlotSeries` returns the series it would draw. Of the plot calls' own checks, only their rejection of series of unequal length is modelled.
- The Tkinter window, widgets and example picker.
- The SymPy path `resolver_simbolicamente` (app.py:26-44), except its string pre-processing `formatear_ecuacion`.
- The SciPy path `resolver_numericamente` (app.py:46-66).
- The identity of Treeview items. Rows are values in display order.
- FormatEquationIsTranslate: stated only for texts without a capital `Y`. A user's capital `Y` can combine with neighbouring text into a placeholder spelling such as `__Y1__`, which the last two steps then expand.
- SecondMarkBecomesSecondDerivative: stated only for texts without a capital `Y`, for the same reason. For `__Y2y''` the first step gives `__Y2__Y2__`, and the expansion of the first `__Y2__` takes the user's `__Y2`, giving `Derivative(y(x), x, x)Y2__`.
- IsWordChar: ASCII letters, digits and `_`. Python's `\b` and `\w` also treat non-ASCII letters and digits as word characters.
- Convergence-order and accuracy claims for the two schemes. They are not promised by the code and need floating-point or analytic reasoning.
