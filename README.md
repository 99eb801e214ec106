# N-move rock-paper-scissors: a Dafny model of its game logic

The program (`index.js`) plays a generalised rock-paper-scissors against the
computer. The moves are the command-line arguments, in the order given. There
must be an odd number of them, at least three, with no repeats. The moves stand
on a circle. The user beats the half of the circle that follows their own move
and loses to the half that precedes it. Before the user chooses, the program
shows an HMAC tag of the computer's move. After a round it discloses the key,
so the user can check that the computer's move was fixed in advance.

The model has four modules, one per part of the game logic:

- `GameRule` (`gamerule.dfy`) covers `GameRule.getResult`. It uses JavaScript's
  truncating `%` and `Math.sign` as written. It also gives a reference
  definition with no remainder: the computer's move lies `k` places after the
  user's, and `k` decides the outcome. The lemmas cover draw iff equal,
  anti-symmetry for odd lengths, the exact win arc, rotation invariance and the
  range of the signed distance.
- `HelpTable` (`helptable.dfy`) covers `CliTable`. A class holds the move list
  and the filled table. `CreateTable` builds it with the source's nested loops.
  Each row is modelled as its cells in column order, not as the
  console-table-printer `Table` object.
- `Menu` (`menu.dfy`) covers `Menu.selectMenuOption` and the `main` loop. The
  user's trimmed line arrives as a token: blank, `?`, a number, or anything else.
- `Launch` (`launch.dfy`) covers the top level: the `repeated` loop, the
  refusal cascade and the commitment made at start-up.

A common wording of this rule has the user win on a negative signed distance.
The code does the opposite, and the model follows the code: in
`index.js:53-58` a negative sign means "lose". So the user beats the `n/2`
moves listed after theirs. The menu text at `index.js:111-113`
says the same. With the list Rock, Paper, Scissors, the program therefore has
Rock beat Paper and lose to Scissors (`GameRule.ThreeMoves`). The standard
five-move Rock-Paper-Scissors-Lizard-Spock table only comes out when the moves
are listed in the order that matches this rule.

## Model

| member | source | states |
|---|---|---|
| `GameRule.Sign` | index.js:52 | `Math.sign` gives -1, 0 or 1, and its sign matches its argument's |
| `GameRule.JsRem` | index.js:52 | JavaScript's `%`: the remainder lies strictly between `-n` and `n`, takes the sign of the dividend (or is 0), and differs from the dividend by a multiple of `n` |
| `GameRule.GetResult` | index.js:47-60 | for every list length, `getResult` equals the rule worded without a remainder: draw at offset 0, win while `offset + n/2 < n`, and lose otherwise |
| `GameRule.Offset` | index.js:111-113 | the number of places the computer's move lies after the user's, going round the list. It is below `n`, it is 0 exactly when the moves are equal, and it moves the user's index onto the computer's |
| `GameRule.SignedDistanceRange` | index.js:50-52 | for in-range indices, the operand of `%` is at least `n/2 + 1`. So JavaScript's remainder equals the Euclidean one, and the signed distance lies in `[-n/2, n/2]` |
| `GameRule.SignedDistance` | index.js:50-52 | the signed distance whose sign `getResult` takes is the computer's offset `k` when `k + n/2 < n`, and `k - n` otherwise |
| `GameRule.DrawIffSameMove` | index.js:47-60 | a round is "draw" exactly when the user's and the computer's indices are equal |
| `GameRule.AntiSymmetric` | index.js:47-60 | for an odd number of moves, swapping the players turns win into lose and lose into win, and keeps draw |
| `GameRule.WinArc` | index.js:47-60 | for odd `n`, the user wins against the move `k` places ahead when `1 <= k <= n/2`, and loses when `n/2 < k < n` |
| `GameRule.RotationInvariant` | index.js:47-60 | shifting both indices by the same amount, modulo `n`, leaves the outcome unchanged |
| `GameRule.ThreeMoves` | index.js:47-60 | with three moves, move 0 beats move 1 and loses to move 2, move 2 beats move 0, and equal moves draw |
| `GameRule.EvenCountBreaksAntiSymmetry` | index.js:47-60 | with four moves, two opposite moves both count as a loss for the user. This is why even lengths are refused |
| `HelpTable.CliTable.constructor` | index.js:64-66 | a new table object keeps the move list and holds no table yet |
| `HelpTable.CliTable.CreateTable` | index.js:70-87 | the columns are the corner title followed by the moves. There is one row per move. Row `i` starts with `moves[i]`, and its cell `j >= 1` is the word for `getResult(j-1, i)` |
| `HelpTable.TextInjective` | index.js:53-59 | the three outcome words are distinct |
| `HelpTable.DrawOnlyOnDiagonal` | index.js:76-86 | cell `(i, j+1)` of the table reads "draw" exactly when `i == j` |
| `HelpTable.MirroredAcrossDiagonal` | index.js:76-86 | for an odd number of moves, cell `(i, j+1)` is "win" exactly when cell `(j, i+1)` is "lose", and the other way round |
| `Menu.ClassifyAsWritten` | index.js:124-147 | the branch cascade as written. It exits exactly on the number 0 and shows help exactly on `?`. It picks move `value - 1` exactly when `1 <= value <= n-1`. A blank line, `"null"` and any other text are invalid |
| `Menu.Classify` | index.js:124-147 | the corrected cascade. It exits exactly on the number 0 and shows help exactly on `?`. It picks move `value - 1` exactly when `1 <= value <= n`. A blank line, `"null"` and any other text are invalid |
| `Menu.Respond` | index.js:126-148 | the answer follows the branch: Quit for exit, the table for help, a rejection for an invalid line. A picked move gives a round naming the user's move and the computer's move, with `getResult(user, computer)`, and discloses the HMAC key |
| `Menu.SelectMenuOptionAsWritten` | index.js:123-149 | as written, the answer is Quit (returns true) only for the number 0, help only for `?`, and a round only for `1 <= value <= n-1`. A round names `moves[value-1]` and the computer's move, gives `getResult(value-1, computer)` and discloses the HMAC key |
| `Menu.SelectMenuOption` | index.js:123-149 | the answer is Quit only for the number 0, help only for `?`, and a round only for `1 <= value <= n`. A round names the user's move and the computer's move, gives `getResult(value-1, computer)` and discloses the HMAC key |
| `Menu.LastListedMoveRejected` | index.js:136 | the number `n`, listed by the menu for the last move, is invalid as written. The corrected cascade picks move `n-1` for it |
| `Menu.LastMoveUnreachableAsWritten` | index.js:136 | as written, no input at all selects the last move |
| `Menu.ClassifyDiffersOnlyOnLast` | index.js:136 | the written and corrected cascades agree on every input except the number `n` |
| `Menu.EveryListedMoveSelectable` | index.js:116-118 | each move listed as `i+1 - name` is picked by the number `i+1`, and by no other input |
| `Menu.RunMenu` | index.js:19-27 | the loop answers each line in turn with `selectMenuOption` as written, stops right after the first line that answers Quit, and exits exactly when some line is the number 0 |
| `Launch.IndexOf` | index.js:160 | `indexOf` returns -1 exactly when the move is absent. Otherwise it returns the first position holding it |
| `Launch.FindRepeated` | index.js:158-163 | `repeated` ends true exactly when some move equals an earlier one |
| `Launch.Judge` | index.js:165-171 | the list is accepted exactly when it has at least 3 moves, an odd count and no repeats. Otherwise the first failing check decides: length below 3, then even length, then repeats |
| `Launch.Message` | index.js:165-171 | only an accepted list has no refusal message |
| `Launch.MessagesDistinct` | index.js:166-170 | the three refusal messages are pairwise distinct |
| `Launch.LaunchAsWritten` | index.js:152-174 | start-up in the source's order crashes exactly on an empty list. Otherwise it refuses exactly the lists the checks reject, and a started session holds the list, the key, the tag over the computer's move and that move |
| `Launch.LaunchChecked` | index.js:152-174 | start-up with the checks first never crashes. It refuses exactly the lists the checks reject, and a started session holds the list, the key, the tag over the computer's move and that move |
| `Launch.StartAsWritten` | index.js:152-174 | start-up in the source's order: the HMAC over `moves[computer_selection]` comes first, then the checks |
| `Launch.Start` | index.js:152-174 | start-up with the checks first and the commitment only for an accepted list |
| `Launch.NoMovesCrashAsWritten` | index.js:153-157 | with no arguments, the start-up as written throws. The checked start-up prints the "at least 3 options" message |
| `Launch.StartUpsAgreeOnNonEmptyLists` | index.js:154-157 | on every non-empty list the two start-ups give the same result |
| `Launch.StartsOnlyOnValidLists` | index.js:165-174 | the menu starts exactly for lists of odd length, at least 3, with no repeats, and then the session is valid. Otherwise the first failing check's message is printed, checking length below 3, then even length, then repeats |
| `Launch.DisclosedKeyOpensTag` | index.js:136-142 | after a played round, the disclosed key and the named computer move recompute the tag shown before the user chose |

## Findings

| source | as written | input that shows it | evidently intended | confidence | as-written member | corrected member |
|---|---|---|---|---|---|---|
| index.js:153-157 | the HMAC over `moves[computer_selection]` is computed before the list is checked. With an empty list that element is `undefined`, and Node's `Hmac.update(undefined)` throws | no command-line arguments | print "Please put more at least 3 options..." and stop, as for one or two moves | high (not executed) | `Launch.NoMovesCrashAsWritten` | `Launch.StartsOnlyOnValidLists` |
| index.js:136 | a move is taken only for `value <= moves.length - 1` | typing `n` (for example `3` with three moves), which the menu lists as the last move | accept every listed number `1..n` | high (not executed) | `Menu.LastMoveUnreachableAsWritten` | `Menu.EveryListedMoveSelectable` |

`Launch.Start` uses the checked start-up, and `Menu.SelectMenuOption` uses the
corrected cascade. `Launch.StartAsWritten`, `Menu.ClassifyAsWritten`,
`Menu.SelectMenuOptionAsWritten` and the `main` loop `Menu.RunMenu` keep the
behaviour as written.

## Left out

- HMAC key generation and the tag: `createHmacKey` draws random bytes, and `createHmac` is HMAC-SHA3-256 in Node's crypto library. The key is a parameter, and the MAC is an arbitrary function parameter. So the model captures only that the tag is a function of the move name and the key.
- Drawing the computer's move: `Math.random()` is floating point and nondeterministic. The drawn index is a parameter that lies below the list length, or is 0 for an empty list.
- Terminal I/O: `askQuestion`, `printMenu`, `printTable`, screen clearing, and the "Press enter" pauses. The `main` loop is kept, with the lines typed given as a sequence.
- The console-table-printer `Table` object and its rendering. Only the column titles and the row contents are modelled. Rows are positional. The source's rows are objects keyed by column title, so a move literally named `v PC/User >` would share a key with the first column. The model does not capture that collision.
- String handling in `selectMenuOption`: `trim()` and `Number()` are not modelled. A line arrives already classified. Numeric lines are integers. The model does not cover inputs that `Number()` turns into fractions, such as `1.5`, which would index the list at `0.5`.
- `GameRule.GetResult` requires both indices below `n`. The program only ever calls it that way.
