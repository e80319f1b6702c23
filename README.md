# Classroom programs: runoff, plurality, bitmap filters, Reversi

This project is a Dafny model of the logic in four classroom programs, with proofs about that logic:

- an instant-runoff election (`cs50x/runoff_commented.c`);
- a plurality vote (`cs50x/plurality.c`);
- three bitmap filters, `grayscale`, `reflect` and `blur` (`cs50x/grayscale_commented.c`);
- the rules of a browser Reversi game (`reversi/index.js`).

Each program's procedures are imperative Dafny in the shape of the original code:

- the global tables become fields of a class;
- the pixel buffer becomes an `array2`;
- the loops stay loops.

Each procedure is proved against a pure function that states what it computes. The properties the programs promise are then proved as lemmas about those functions.

Files:

- `names.dfy` (module `Names`): the case-sensitive first-match name lookup. Both election programs use it.
- `plurality.dfy` (module `Plurality`): the meaning of `vote`, the tally loop and `print_winner` as functions, and the class `Election` holding `candidates[]` and `candidate_count`.
- `runoff.dfy` (module `Runoff`): the meaning of ballot recording and of each round step, as functions on a roster of candidates and the ballot matrix. It also has the round loop as a terminating function `Outcome`, and the class `Election` holding `candidates[]`, `preferences[][]`, `voter_count` and `candidate_count`.
- `filters.dfy` (module `Filters`): the three filters as in-place methods on an `array2` of RGB triples, with the exact integer meaning of their rounded averages.
- `reversi_rules.dfy` (module `ReversiRules`): the board rules as functions:
  - the one-direction scan;
  - the flips of a move;
  - the legal moves;
  - the stone count;
  - the board after a move;
  - the pass / game-over rule;
  - the opening position.
- `reversi.dfy` (module `Reversi`): the class `Game` holding `board`, `currentPlayer` and `gameOver`, with the page's handlers as methods.

Modelling decisions:

- The C programs' output (`printf` of the winners) becomes returned sequences of names.
- The values read from standard input (`get_int`, `get_string`) and from the command line become method parameters.
- The filters round with floating-point `round(sum / n)`. Every sum is a small non-negative integer. The divisor is 3 or a count between 1 and 9. So the result equals the integer round-half-up `(2s + n) / (2n)`, and that is what is modelled (`Filters.RoundDiv`). A quotient whose exact value is not a half lies at least 1/18 from a half, which is far beyond single- or double-precision error.
- The Reversi board is an 8 x 8 grid of integers: EMPTY 0, BLACK 1, WHITE 2, as in the script. It is a field of type `seq<seq<int>>`, and each write replaces the board by a copy with one cell changed.

Details of the runoff code that the model keeps as written:

- `eliminate(min)` also flags candidates that are already eliminated and hold `min`. A flag is never cleared, so this cannot be observed.
- The counts start at zero and are reset at the end of each continuing round (`cs50x/runoff_commented.c:173-176`), not at the start of a round. `Runoff.Election.RunRounds` follows this.
- The example run in the file's closing comment (`cs50x/runoff_commented.c:483-499`) gives the cyclic ballots Alice-Bob-Charlie, Bob-Charlie-Alice and Charlie-Alice-Bob, and shows "Alice" as the result. The code gives each candidate one first-round vote, finds a full tie, and prints all three names. `Runoff.SplitFirstChoicesTie` proves that outcome.

## Model

| member | source | states |
|---|---|---|
| Names.FirstIndex | cs50x/runoff_commented.c:212-223 | the roster scan finds a name exactly when it is on the roster, returns an index holding it, and no earlier index holds it |
| Plurality.MaxVotes | cs50x/plurality.c:129-139 | the running maximum of `print_winner` starts at 0, is at least every count, and is 0 or some candidate's count |
| Plurality.CastEffect | cs50x/plurality.c:92-112 | a vote for a roster name raises the total by one, and only the first candidate with that name gains; an unknown name changes no count |
| Plurality.CastAllEffect | cs50x/plurality.c:72-83 | after the tally loop each candidate has gained one vote per ballot whose first match it is, and the total has grown by the number of accepted ballots (invalid votes are skipped, not fatal) |
| Plurality.FreshTotal | cs50x/plurality.c:60-64 | the roster `main` sets up holds no vote |
| Plurality.TallyFromFresh | cs50x/plurality.c:60-83 | from the set-up roster, the tally loop leaves each candidate exactly the ballots whose first match it is, and the votes add up to the number of valid ballots |
| Plurality.WinnersMembers | cs50x/plurality.c:143-150 | a name is reported exactly when some candidate with that name holds the given count |
| Plurality.WinnersLength | cs50x/plurality.c:143-150 | one name is reported per candidate holding the given count |
| Plurality.WinnersOfMax | cs50x/plurality.c:126-153 | `print_winner` reports exactly the names of candidates holding the largest count, and at least one name whenever there is a candidate |
| Plurality.Election.constructor | cs50x/plurality.c:49-64 | the table holds the command-line names in order, every count at zero |
| Plurality.Election.Vote | cs50x/plurality.c:92-112 | `vote` succeeds exactly when the name is on the roster, and the table becomes the roster after that vote; entries past `candidate_count` are untouched |
| Plurality.Election.Tally | cs50x/plurality.c:72-83 | the tally loop leaves the roster after all ballots in order, and the rejected ballots plus the accepted ones make up all ballots |
| Plurality.Election.PrintWinner | cs50x/plurality.c:126-153 | the maximum found is the largest count (0 for an empty roster) and the names reported are the candidates holding it, in roster order |
| Runoff.TopChoice | cs50x/runoff_commented.c:253-269 | the rank loop yields a candidate not eliminated, the one at the first rank that is not eliminated, and yields nothing exactly when every ranked candidate is eliminated |
| Runoff.TopChoiceAt | cs50x/runoff_commented.c:253-267 | once every earlier rank is eliminated and rank `j` is not, rank `j` decides |
| Runoff.AddBallot | cs50x/runoff_commented.c:250-269 | counting one ballot keeps every name and every eliminated flag |
| Runoff.Tabulated | cs50x/runoff_commented.c:247-271 | `tabulate` keeps every name and every eliminated flag |
| Runoff.TabulatedVotes | cs50x/runoff_commented.c:247-271 | each candidate gains exactly the number of ballots whose top remaining choice it is, and an eliminated candidate gains nothing |
| Runoff.TallyEliminated | cs50x/runoff_commented.c:259-262 | no ballot counts for an eliminated candidate |
| Runoff.TabulatedTotal | cs50x/runoff_commented.c:250-269 | the votes added by `tabulate` total the number of ballots that still have a candidate in the race |
| Runoff.CountedBounds | cs50x/runoff_commented.c:250-269 | at most `voter_count` ballots are counted, and all of them when no ballot is exhausted |
| Runoff.FirstOver | cs50x/runoff_commented.c:297-310 | the scan yields the first candidate in roster order over the threshold, and yields none exactly when nobody is over it |
| Runoff.MajorityWinner | cs50x/runoff_commented.c:292-312 | the winner is the first candidate in roster order holding more than `voter_count / 2` (integer division) votes; there is none exactly when nobody does |
| Runoff.MajorityWinnerAt | cs50x/runoff_commented.c:300-309 | the first candidate over the threshold is the one `print_winner` reports |
| Runoff.MajorityIsUnique | cs50x/runoff_commented.c:297-310 | when the counts add up to at most `voter_count`, two candidates cannot both clear the threshold |
| Runoff.ResetTotal | cs50x/runoff_commented.c:173-176 | after the reset loop no candidate holds a vote |
| Runoff.FreshTotal | cs50x/runoff_commented.c:94-99 | the set-up roster holds no vote |
| Runoff.TabulatedFromZero | cs50x/runoff_commented.c:247-271 | tabulated from zeroed counts, no count is negative, the votes add up to at most the number of ballots (`voter_count`), and to exactly that number when no ballot is exhausted |
| Runoff.RoundWinnerUnique | cs50x/runoff_commented.c:292-312 | in a round tabulated from zeroed counts, any candidate over `voter_count / 2` votes is the one `print_winner` reports, so the winner is unique |
| Runoff.MinActive | cs50x/runoff_commented.c:333-351 | `find_min` returns at most `voter_count`, at most every remaining candidate's count, and either `voter_count` or some remaining candidate's count |
| Runoff.MinActiveAttained | cs50x/runoff_commented.c:337-350 | the minimum is some remaining candidate's count whenever a remaining candidate holds at most `voter_count` |
| Runoff.Eliminated | cs50x/runoff_commented.c:426-440 | elimination keeps every name and every count |
| Runoff.EliminatedFlags | cs50x/runoff_commented.c:429-438 | after `eliminate(min)` a candidate is flagged exactly when it was flagged before or holds `min`; no flag is cleared |
| Runoff.Reset | cs50x/runoff_commented.c:173-176 | the reset loop sets every count to zero and keeps names and flags |
| Runoff.ActiveCountMonotone | cs50x/runoff_commented.c:426-440 | adding flags never raises the number of remaining candidates, and adding one strictly lowers it |
| Runoff.ActiveNamesCount | cs50x/runoff_commented.c:157-164 | the tie report lists one roster name per remaining candidate |
| Runoff.EliminationShrinks | cs50x/runoff_commented.c:150-176 | a round with no winner and no full tie eliminates at least one remaining candidate and keeps at least one |
| Runoff.Decide | cs50x/runoff_commented.c:139-169 | a round ends with the majority winner (the first candidate over `voter_count / 2`), or with a full tie at the minimum when there is no winner, or else continues with the minimum when there is neither |
| Runoff.OutcomeStep | cs50x/runoff_commented.c:135-177 | a winning round reports the winner's name, a tied round the remaining names, and a continuing round leaves a zeroed roster with the same outcome and fewer remaining candidates |
| Runoff.OutcomeBounds | cs50x/runoff_commented.c:135-177 | the round loop runs at most as many rounds as there are remaining candidates (so at most `candidate_count`), and reports at least one name, each a roster name |
| Runoff.EliminatedNobody | cs50x/runoff_commented.c:426-440 | `eliminate(min)` changes nothing when no candidate holds `min` |
| Runoff.VoterCheck | cs50x/runoff_commented.c:102-110 | the intended voter-count check exits with code 3 exactly when the count is above 100 |
| Runoff.DecideAsWrittenAgrees | cs50x/runoff_commented.c:139-169 | with C's truncating division, a round over a non-negative `int` voter count decides as Decide does |
| Runoff.StallsAtMinusOne | cs50x/runoff_commented.c:135-177 | at voter count -1, which the check lets through, a round from zeroed counts has no winner and no tie, flags nobody, and leaves the same roster, so the loop never ends |
| Runoff.FirstWinsBelowMinusOne | cs50x/runoff_commented.c:292-312 | at a voter count of -2 or below, which the check lets through, the first candidate is reported the winner from zeroed counts |
| Runoff.CheckedCountTerminates | cs50x/runoff_commented.c:102-177 | for a voter count from 0 to 100, every round decides as Decide does, and the loop ends within the number of remaining candidates with at least one name |
| Runoff.Fresh | cs50x/runoff_commented.c:94-99 | the set-up roster holds the given names, with every candidate in the race |
| Runoff.FreshAt | cs50x/runoff_commented.c:94-99 | candidate `k` of the set-up roster has name `k`, no votes and no flag |
| Runoff.SplitTabulation | cs50x/runoff_commented.c:247-271 | three ballots where ballot `i` ranks candidate `i` first give each of three fresh candidates one vote |
| Runoff.SplitFirstChoicesTie | cs50x/runoff_commented.c:135-177 | an election of three fresh candidates where ballot `i` ranks candidate `i` first (for example the cyclic ballots 0-1-2, 1-2-0, 2-0-1) ends after one round in a full tie reporting all three names in roster order |
| Runoff.Election.constructor | cs50x/runoff_commented.c:84-99 | the table holds the command-line names with zero counts and no flags, and the ballot matrix is zero |
| Runoff.Election.Vote | cs50x/runoff_commented.c:208-225 | `vote` succeeds exactly when the name is on the roster, then stores the first matching index at `preferences[voter][rank]`, and changes no other entry (none at all on failure) |
| Runoff.Election.RecordBallots | cs50x/runoff_commented.c:112-131 | the ballot loop succeeds exactly when every name is on the roster, and then every entry holds its name's first index; the roster is unchanged |
| Runoff.Election.RecordBallot | cs50x/runoff_commented.c:117-129 | one voter's ranks are recorded in order, or the first invalid name stops the loop; other voters' rows are unchanged |
| Runoff.Election.Tabulate | cs50x/runoff_commented.c:247-271 | the table becomes the tabulation of the recorded ballots from the old table |
| Runoff.Election.CountBallot | cs50x/runoff_commented.c:250-269 | one voter's ballot is counted as AddBallot says |
| Runoff.Election.TopRanked | cs50x/runoff_commented.c:253-269 | the rank loop finds the voter's top remaining choice |
| Runoff.Election.PrintWinner | cs50x/runoff_commented.c:292-312 | `print_winner` succeeds exactly when some candidate holds more than `voter_count / 2` votes, and names the first such candidate |
| Runoff.Election.FindMin | cs50x/runoff_commented.c:333-351 | `find_min` is at most `voter_count` and every remaining count, and is attained by a remaining candidate when one holds at most `voter_count` |
| Runoff.Election.IsTie | cs50x/runoff_commented.c:373-403 | `is_tie(min)` holds exactly when every remaining candidate holds `min` (vacuously when none remain) |
| Runoff.Election.Eliminate | cs50x/runoff_commented.c:426-440 | the table becomes the old one with every candidate holding `min` flagged |
| Runoff.Election.RunRounds | cs50x/runoff_commented.c:135-177 | the round loop terminates and returns exactly the names Outcome assigns to the starting roster and the recorded ballots |
| Runoff.Election.PlayRound | cs50x/runoff_commented.c:139-176 | one round: the winner's name, or the tie report, or the next round's zeroed roster after elimination |
| Runoff.Election.RemainingNames | cs50x/runoff_commented.c:157-164 | the tie branch reports the remaining candidates' names in roster order |
| Runoff.Election.ResetVotes | cs50x/runoff_commented.c:173-176 | every count in use goes back to zero |
| Filters.RoundDivIsNearest | cs50x/grayscale_commented.c:45 | the rounded quotient is within a half of `s / n`, with a half rounded up |
| Filters.RoundDivBetween | cs50x/grayscale_commented.c:236-238 | the rounded mean of values between `lo` and `hi` stays between them |
| Filters.RoundDivNearest | cs50x/grayscale_commented.c:45 | the rounded quotient is the only integer within a half of `s / n` (a half below included) |
| Filters.Gray | cs50x/grayscale_commented.c:34-56 | a grayscale pixel has three equal channels |
| Filters.GrayIsMean | cs50x/grayscale_commented.c:34-56 | the gray value is the mean of the three channels rounded half-up, and lies between the smallest and the largest of them, so within 0..255 |
| Filters.GrayIdempotent | cs50x/grayscale_commented.c:34-56 | a gray pixel stays as it is |
| Filters.Grayscale | cs50x/grayscale_commented.c:8-63 | every pixel becomes Gray of its old value |
| Filters.Mirror | cs50x/grayscale_commented.c:139-166 | mirroring keeps the dimensions, and column `c` shows the old column `width - 1 - c` |
| Filters.MirrorInvolution | cs50x/grayscale_commented.c:145-165 | reflecting twice restores the image |
| Filters.MirrorMiddle | cs50x/grayscale_commented.c:145-165 | for an odd width the middle column does not move |
| Filters.Reflect | cs50x/grayscale_commented.c:134-168 | each new pixel `(i, j)` is the old pixel `(i, width - 1 - j)` |
| Filters.ReflectRow | cs50x/grayscale_commented.c:145-165 | the swap loop reverses row `i` and leaves every other row alone |
| Filters.Window | cs50x/grayscale_commented.c:206-228 | the neighbourhood sums count at most the cells visited |
| Filters.WindowCountBounds | cs50x/grayscale_commented.c:198-228 | the neighbour count of a pixel is between 1 and 9 |
| Filters.WindowSumBetween | cs50x/grayscale_commented.c:206-228 | a channel sum lies between `lo` and `hi` times the count when every inside neighbour lies between them |
| Filters.WindowMeanInRange | cs50x/grayscale_commented.c:236-238 | the rounded neighbourhood mean of a channel is again a byte |
| Filters.Blurred | cs50x/grayscale_commented.c:236-238 | each channel of a blurred pixel is the integer nearest the mean over its inside neighbours (a half rounded up): twice the count times it is within one count of twice the sum |
| Filters.BlurBetween | cs50x/grayscale_commented.c:198-238 | a blurred channel lies between the smallest and largest neighbour values of that channel |
| Filters.BlurUniform | cs50x/grayscale_commented.c:173-242 | a uniformly coloured image is left as it is |
| Filters.Blur | cs50x/grayscale_commented.c:173-242 | every new pixel is the blurred value of the original image, read from the untouched copy, whatever the traversal order |
| Filters.BlurAt | cs50x/grayscale_commented.c:198-238 | the neighbourhood loops compute the blurred pixel from the copy |
| ReversiRules.Opponent | reversi/index.js:226 | the opponent is the other colour |
| ReversiRules.Run | reversi/index.js:251-267 | a direction's scan collects only on-board opponent stones |
| ReversiRules.RunBracketed | reversi/index.js:245-267 | a direction yields a run exactly when it is the first cells of the ray, all opponent stones, followed by the player's own stone; a run that reaches an EMPTY cell or the edge yields nothing |
| ReversiRules.FlipsUpToCells | reversi/index.js:245-268 | every stone the direction loop collects is on the board and is the opponent's |
| ReversiRules.Flips | reversi/index.js:219-272 | an occupied target cell flips nothing, and every flipped position is on the board and holds the opponent's stone |
| ReversiRules.DirFlipsShape | reversi/index.js:245-267 | one direction's flips are distinct and lie in that direction |
| ReversiRules.FlipsShape | reversi/index.js:219-272 | a move's flips are pairwise distinct and never include the placed cell |
| ReversiRules.CellsWhereMembers | reversi/index.js:205-212 | the row-major scan lists a cell exactly when it is on the board, has been reached, and is selected |
| ReversiRules.CellsWhereOrdered | reversi/index.js:205-212 | the scan lists cells in strictly increasing row-major order |
| ReversiRules.PickWhere | reversi/index.js:205-212 | pushing the cells whose legality test passed builds the row-major selection |
| ReversiRules.ValidMovesSpec | reversi/index.js:200-214 | the legal moves are exactly the on-board cells whose move flips something, in row-major order |
| ReversiRules.SetCellCount | reversi/index.js:182 | writing one cell moves one unit of count from its old value to the new one |
| ReversiRules.ApplyFlipsAt | reversi/index.js:186-188 | after the flips loop a listed cell holds the player and every other cell is unchanged |
| ReversiRules.ApplyFlipsCount | reversi/index.js:186-188 | flipping distinct opponent cells moves that many units of count from the opponent to the player |
| ReversiRules.MoveCells | reversi/index.js:182-188 | after a move the target and every flipped cell hold the mover and every other cell is unchanged |
| ReversiRules.Count | reversi/index.js:156-162 | `countStones` counts at most one per cell: at most 64 on the 8 x 8 board |
| ReversiRules.CountPartition | reversi/index.js:156-162 | on a board whose cells are all EMPTY, BLACK or WHITE, the three counts add up to 64 |
| ReversiRules.MoveCounts | reversi/index.js:156-162 | a legal move raises the mover's count by flips + 1, lowers the opponent's by flips, and fills one EMPTY cell |
| ReversiRules.SettleSettled | reversi/index.js:134-150 | after the pass / game-over rule the game is over or the player to move has a legal move, so the redraw that follows changes nothing |
| ReversiRules.SettleOver | reversi/index.js:134-150 | the game ends exactly when neither side has a legal move |
| ReversiRules.BoardExt | reversi/index.js:33 | two boards that agree on every cell are equal |
| ReversiRules.Initial | reversi/index.js:33-43 | the opening position is an 8 x 8 board |
| ReversiRules.InitialSetup | reversi/index.js:33-43 | an all-EMPTY board with WHITE set on (3,3) and (4,4) and BLACK on (3,4) and (4,3) is the opening position |
| ReversiRules.InitialCounts | reversi/index.js:33-43 | the opening position holds two stones of each colour and sixty EMPTY cells |
| ReversiRules.InitialSettled | reversi/index.js:28-48 | BLACK has a legal move at (2,3) in the opening position, so the status check after `initGame` changes nothing |
| Reversi.Game.constructor | reversi/index.js:280 | loading the page starts a game in the opening position with BLACK to move |
| Reversi.Game.InitGame | reversi/index.js:28-48 | `initGame` leaves the opening position, BLACK to move and the game not over |
| Reversi.Game.GetFlipsForMove | reversi/index.js:219-272 | `getFlipsForMove` returns exactly the flips of the move |
| Reversi.Game.ScanDirections | reversi/index.js:245-268 | the direction loop collects the closed runs of all eight directions in scan order |
| Reversi.Game.ScanDirection | reversi/index.js:246-267 | one pass of the direction loop appends that direction's closed run |
| Reversi.Game.ScanRun | reversi/index.js:251-267 | the while loop finds a run closed by the player's stone exactly when the one-direction scan yields that run |
| Reversi.Game.GetValidMoves | reversi/index.js:200-214 | `getValidMoves` returns exactly the legal moves, in row-major order |
| Reversi.Game.UpdateStatus | reversi/index.js:134-150 | the pass / game-over rule: a player without a move passes to an opponent who has one; when neither has one the game is over; the board is unchanged |
| Reversi.Game.PlaceStones | reversi/index.js:182-188 | the target and then each listed cell are set to the current player |
| Reversi.Game.HandleCellClick | reversi/index.js:166-196 | a click after the game is over, or one that flips nothing, changes nothing; otherwise the board becomes the move's result, the turn passes to the opponent, and the pass / game-over rule is applied |

## Left out

- Standard input and output: `get_int`, `get_string`, `printf`, and argument parsing with its exit codes 1 and 2. Names and voter counts arrive as parameters, and printed names are returned.
- The runoff program's voter-count check (`cs50x/runoff_commented.c:102-110`) is modelled only as the two functions under "## Findings". The class starts from the state that the set-up would reach after a voter count between 0 and 100.
- `sepia` and the bitmap file structures are not modelled. Sepia uses fractional coefficients.
- `cs50x/volume_simple_commented.c` is not part of this model. It is file I/O plus a floating-point scale.
- Reversi's DOM work is not modelled. That covers rendering the cells, the score and turn labels, `alert`, the event listeners and the JavaScript primer demo at the end of the script.
- Reversi's winner text, set from the two stone counts once the game is over (`reversi/index.js:110-122`), is display only. The counts it compares are modelled (`ReversiRules.Count`).
- Reversi.Game.HandleCellClick: the redraw that `handleCellClick` triggers, and the change of state inside it, are folded into one state transition. `render` calls `getValidMoves` and then `updateStatus`, and those may call `render` again after a pass. The model applies the rule once, which `ReversiRules.SettleSettled` shows is the same as applying it again.
- Reversi.Game.InitGame: the `render` at the end of `initGame` is not called. `ReversiRules.InitialSettled` shows its status check changes nothing in the opening position.
- Reversi.Game: the board is a `seq<seq<int>>` field that each cell write replaces. It is not a shared JavaScript array, so aliasing of rows is not modelled. The script never shares rows.
- Reversi.Game.HandleCellClick requires the clicked cell to be on the board, because the page only creates clicks for its 64 cells.
- Runoff.Election.RunRounds requires every count to be zero at the start, as the set-up in `main` leaves them.
- Runoff.Election.constructor: the voter count is taken to be non-negative (`voters: nat`), and so are `voterCount`, `Outcome` and `Rounds`. The program does not check this: `get_int` can return a negative count, and the intended check lets it through. What the program then does is stated separately, not by the class (see "## Findings"). At -1 the round loop never ends (`Runoff.StallsAtMinusOne`). At -2 or below the first candidate wins with no ballot counted (`Runoff.FirstWinsBelowMinusOne`).
- Plurality.Election.constructor and Runoff.Election.constructor take the roster as a sequence. The program's checks on the command line become preconditions: at most 9 candidates, at least one candidate for the runoff, and at most 100 voters for the runoff. The usage messages and exit codes that reject other inputs are I/O.

## Findings

| source | as written | input that shows it | evidently intended | confidence | as-written member | corrected member |
|---|---|---|---|---|---|---|
| cs50x/runoff_commented.c:102-110 | the block after `get_int` has no `if`, so the program prints the voter limit and exits with code 3 whatever count was read | a voter count of 3, as in the program's own example run | exit with code 3 only when the count is above `MAX_VOTERS` (100) | high, not executed | Runoff.VoterCheckRejectsThree | Runoff.VoterCheck |
| cs50x/runoff_commented.c:102-177 | even the intended check lets a negative voter count through, and `print_winner` and `find_min` then work from it | voter count -1: C's `-1 / 2` is 0, nobody is over it, `find_min` returns -1, which nobody holds, so no tie and no elimination, and the round loop repeats forever; at -2 or below `candidates[0]` wins with no ballot | turn away negative counts as well, so the election runs on 0 to 100 voters and the round loop ends | medium, not executed | Runoff.StallsAtMinusOne | Runoff.CheckedCountTerminates |
