# agentd: a verified model

agentd runs agents that spend money, call MCP servers and follow workflows. This project models
the parts of it where a mistake is hard to see by reading one function, and proves what those
parts are for:

- **Allowances** (`Calendar`, `Allowances`, `Spending`, `Restarts`, `Answers`, `Budgets`,
  `Histories`, `Excesses`). A person allows an agent a budget and a number of payments per calendar
  period. Charges are kept in memory and in a store, move between five states and are swept when
  their period is over. The
  charges the ledger holds stay within the limits of every period all through a run, in memory and
  in the store, exactly when no settle revives a refused charge without room; all that was ever
  charged, forgotten charges included, stays within them exactly when every charge taken or revived
  had room, which judging a charge ensures unless its period was swept or its record written over;
  no operation is confirmed twice; and a restart counts what the process before it counted. Runs
  that pass a limit show what each condition is for. Periods are those of a calendar that is walked
  a day at a time, and the UTC arithmetic underneath is proved against it.
- **Followed tasks and re-dials** (`Tasks`, `Follow`, `Redial`). A call that becomes a task is
  polled, a person is asked for input, answers are sent until the server acknowledges them, and
  what is given up is cancelled. Lost connections are re-dialed on a schedule.
- **Hang-ups and challenges** (`Hangup`, `Challenges`, `Spellings`). A flag and a lock let any
  thread hang up an exchange another blocks on; `WWW-Authenticate` values are split by a
  hand-written scanner, whatever way they are spelled.
- **JSON Schema** (`Pointers`, `Schemas`, `Keywords`, `CutOff`, `Validator`). A validator that
  collects violations, follows cyclic `$ref` and gives up only at a depth, against a plain boolean
  reading; and each keyword of that reading against what it says of a value.
- **The workflow editor** (`Graphs`, `Kahn`, `Workflow`, `Layout`) and **base64** (`Base64`).

The model takes the form of the code: the ledger, the tracker, the connection and the handle are
classes, loops are loops proved against functions of their inputs, and pure code is functions. What
the program does not decide (store replies, server replies, the person, clocks, the caller's
`stop`, the other payment rail's usage) is an arbitrary input. Each public call of the ledger is
one atomic step.

## Where the code and its promises part

- `settle` alone can move a refused charge back to one that counts, without looking at the limits.
  It keeps the limits of an allowance exactly when it revives nothing, or there is room for what it
  revives (`Budgets.SettleSafeExactly`); a run from an empty store that passes a budget this way is
  `Excesses.RevivalExceeds`.
- A charge is judged by what the ledger still holds, so what it forgot can be spent again. A sweep
  forgets a charge whose allowance it was not told of, and one of a period that is over by its clock;
  charging that period again takes two hundred of a hundred (`Excesses.ForgottenExceeds`). While the
  store cannot be read, a charge of zero to an allowance no amount can pass is written over a stored
  charge of the same operation, and that charge is forgotten too (`Excesses.OverwrittenExceeds`). All
  that was ever charged stays within the limits exactly when each charge taken or revived had room
  with the forgotten ones counted (`Histories.EverHolds`); a caller can be sure of it for charges when
  sweeps are told of the allowance, no period older than a sweep is charged, and nothing is charged
  for zero before the read (`Histories.OrderlyHolds`).
- A degraded store that keeps a charge it refuses, or loses a record whose delete it refuses, parts
  memory from store; these are exactly the calls that do (`Restarts.StepMirrorsExactly`), and the
  next process can then read more than a budget (`Excesses.StrayExceeds`).
- Until the stored charges are read nothing is left of any allowance, yet a charge of zero
  passes when the budget is the greatest 128-bit number and there is no limit on payments
  (`Spending.UnreadRefusesExactly`).
- The week that holds 1970-01-01 starts on a Monday before the epoch; the code clamps it to 0 and
  its end then runs into the next week (`Calendar.FirstWeekOverlaps`).
- `follow_task` says its pause doubles to five minutes; the shift is capped at eight, so it stays at
  256 seconds (`Follow.PollBackoffShape`).
- `redial_within` says a server that loses every session settles to one re-dial every 30 seconds;
  a 30-second gap resets the count, so every 61 seconds bring seven re-dials, for ever
  (`Redial.NeverSettles`). The gap after a session reaches 30 seconds exactly when six flaps went
  before it (`Redial.GapExactly`).
- `std_decode` calls itself strict, yet takes unpadded text and any value in the spare bits of the
  last character; `Base64.CanonicalExactly` says which texts are what the encoder writes.
- `challenges` says it skips a `token68` credential. One padded with two or more `=` is skipped, and
  one padded with one that ends the header; with one `=` and a comma after it, it is read as a
  parameter without text, and without `=` as a scheme (`Spellings.CredentialExactly`).
- `multipleOf` takes what lies within a thousand-millionth of the factor from a multiple
  (`Keywords.MultipleKeyword`), so a whole number that is no multiple is taken for factors of a
  thousand million and more, and for no smaller one (`Keywords.WholeMultiples`).
- `resolve_ref` trims every leading slash, so a pointer that starts with an empty key and goes on
  names another node, or none (`Pointers.PointerComesBackExactly`).

## Model

| member | source | states |
|---|---|---|
| `Calendar.DaysStep` | crates/agentd/src/spending.rs:85-93 | from any valid date, the next calendar day (4/100/400 leap rule) has the next day number |
| `Calendar.DaysCount` | crates/agentd/src/spending.rs:85-93 | the date n single steps after 1970-01-01 has day number n |
| `Calendar.DaysFromCivilIsWalk` | crates/agentd/src/spending.rs:85-93 | every valid date from 1970 on is reached by that walk, after exactly `days_from_civil` steps |
| `Calendar.DaysIncreasing` | crates/agentd/src/spending.rs:85-93 | day numbers order dates as the calendar does, both ways |
| `Calendar.CivilInverse` | crates/agentd/src/obs/log.rs:782-793 | `civil_from_days` undoes `days_from_civil` on every valid date, before our era too |
| `Calendar.CivilFromDaysIsWalk` | crates/agentd/src/obs/log.rs:782-793 | `civil_from_days` of n is the date n steps after the epoch |
| `Calendar.PeriodsTileTime` | crates/agentd/src/spending.rs:97-132 | a period holds its instant, its end starts the next one, and it is the period of exactly the instants it holds; for weeks if and only if the instant is Monday 1970-01-05 or later, for the others always |
| `Calendar.FirstWeekOverlaps` | crates/agentd/src/spending.rs:97-132 | in the first, clamped week the period runs seven days from the epoch, into the week that starts on 1970-01-05 |
| `Calendar.PeriodEndFits` | crates/agentd/src/spending.rs:113-132 | the end of a period is at most 366 days past its instant, so it fits the word where that does |
| `Calendar.SinceMonotone` | crates/agentd/src/spending.rs:253-261 | period starts never go back as time goes on, and never lie after their instant |
| `Calendar.SinceIsPeriod` | crates/agentd/src/spending.rs:97-110 | two instants have the same `since` if and only if they lie in the same day, week, month, quarter or year of the walked calendar; with `once` always |
| `Calendar.SinceExactly` | crates/agentd/src/spending.rs:253-261 | an instant is at or after `since` if and only if it lies in the current period or later |
| `Calendar.SinceOfSince` | crates/agentd/src/spending.rs:253-255 | a period's start is its own start |
| `Allowances.Judge` | crates/agentd/src/spending.rs:284-379 | a charge passes if and only if no limit is exceeded; a refusal lists exactly the exceeded limits; the flag says whether it is above `approve_above` |
| `Allowances.ReasonsExact` | crates/agentd/src/spending.rs:292-374 | a limit is among the collected reasons if and only if the charge is past it |
| `Allowances.HostExactly` | crates/agentd/src/spending.rs:322-342 | a host is refused if and only if no listed one is the same but for the case of its letters |
| `Spending.TallyTake` | crates/agentd/src/spending.rs:551-563 | what counts is a sum over the charges that does not depend on the order they are taken in |
| `Spending.Total` | crates/agentd/src/spending.rs:551-563 | the loop adds up exactly the counting charges of the allowance from an instant on, one left out, saturating at the width of the counters |
| `Spending.TallyCurrent` | crates/agentd/src/spending.rs:551-563 | what is summed from `since` on is what lies in the current calendar period or later |
| `Spending.JudgedExactly` | crates/agentd/src/spending.rs:284-379 | once the store was read, a payment passes if and only if both rails' payments in the current period or later, and this one, fit the budget and the number of payments, and every other limit holds, each said in plain terms |
| `Spending.AnswersExactly` | crates/agentd/src/spending.rs:630-667 | confirmed before is refused, an open outcome is held, and anything else is answered as new if and only if the allowance in force admits it and the store keeps it; the flag is set if and only if the amount is above `approve_above` |
| `Spending.SettleFinalCounts` | crates/agentd/src/spending.rs:675-694 | after the end of an operation that the store kept, its charge counts if and only if it counted, was not cancelled, and was succeeded, confirmed or known to be taken; one the store did not keep stays as it was; nothing else changes |
| `Spending.TallySplit` | crates/agentd/src/spending.rs:746-757 | what a sweep takes out and what it leaves sum to what was there |
| `Restarts.StepWrites` | crates/agentd/src/spending.rs:630-729 | a charge or a settle writes one charge to the store and to memory, and nothing else |
| `Restarts.StepMirrorsExactly` | crates/agentd/src/spending.rs:716-758 | a step keeps memory and store together if and only if the store does not keep a write it refused, or lose a record whose delete it refused |
| `Restarts.MirrorsExactly` | crates/agentd/src/spending.rs:716-758 | they stay together all through a run if and only if no step strays so |
| `Restarts.RestartCountsTheSame` | crates/agentd/src/spending.rs:491-587 | after any such run a process that starts again and reads the store counts the same usage for every allowance at every instant |
| `Answers.NewThenHeld` | crates/agentd/src/spending.rs:639-650 | an operation answered as new is held from then on, and nothing changes |
| `Answers.ConfirmedThenRefused` | crates/agentd/src/spending.rs:641-646 | an operation settled as confirmed is refused from then on |
| `Answers.SucceededThenRefused` | crates/agentd/src/spending.rs:675-694 | so is one whose counting charge the end of the operation confirms |
| `Answers.AnswersStand` | crates/agentd/src/spending.rs:630-758 | through any run, until a step moves or forgets the charge, every charge of its operation gets the one answer its state calls for and changes nothing |
| `Answers.NeverTwice` | crates/agentd/src/spending.rs:480-758 | no charge of a confirmed operation is let through until then, restarts and failed reads included, over a store that answers plainly and for amounts that are not zero |
| `Answers.SweepForgetsExactly` | crates/agentd/src/spending.rs:733-758 | a sweep keeps a charge if and only if it is on its way, its delete failed, or it lies in the current calendar period or later of an allowance the sweep was told of |
| `Answers.NoAllowanceNoRead` | crates/agentd/src/spending.rs:576-587 | without an allowance the store is never read |
| `Answers.ReadOnceThereIsOne` | crates/agentd/src/spending.rs:491-587 | with one it is read as soon as it can be, and what it holds is then in memory |
| `Budgets.PutExactly` | crates/agentd/src/spending.rs:716-729 | a counting charge put where none counted keeps every period within the limits if and only if its own period has room |
| `Budgets.MoveExactly` | crates/agentd/src/spending.rs:698-709 | a charge that changes state keeps them, unless it did not count and now does: then if and only if there is room |
| `Budgets.ChargeHasRoom` | crates/agentd/src/spending.rs:630-667 | the room `judge` saw from the start of the period on is room in the calendar period of the new charge |
| `Budgets.SettleSafeExactly` | crates/agentd/src/spending.rs:698-709 | a settle keeps the limits of an allowance if and only if it revives no refused charge, or the charge's period has room for it |
| `Budgets.StepExactly` | crates/agentd/src/spending.rs:480-758 | every step of the ledger, the first read and a restart included, keeps the limits in memory and in the store under that same condition |
| `Budgets.BudgetHolds` | crates/agentd/src/spending.rs:480-758 | the charges held stay within every period's budget and number of payments all through a run, any clock in any order, if and only if every settle that revives a charge finds room: in memory whatever the store answers, in the store through restarts and failed reads while it answers plainly |
| `Budgets.MemoryWithin` | crates/agentd/src/spending.rs:491-519 | what holds of the store then holds of memory |
| `Budgets.OnceNeverRenews` | crates/agentd/src/spending.rs:253-255 | all counting charges of an allowance for `once`, whenever they were made, stay within its limits all through a run by the same condition |
| `Histories.StepConserves` | crates/agentd/src/spending.rs:630-758 | with forgotten charges kept in mind, a step adds to a period exactly what it charges to it |
| `Histories.RunConserves` | crates/agentd/src/spending.rs:630-758 | so nothing a run charges escapes the count, whatever became of it |
| `Histories.StepEverExactly` | crates/agentd/src/spending.rs:630-758 | any step, in memory once it was read or in a store that mirrors it and answers plainly, keeps all that was ever charged within the limits if and only if the charge it takes or revives has room with the forgotten ones counted |
| `Histories.EverHolds` | crates/agentd/src/spending.rs:480-758 | the same all through a run: in memory from a good read to a restart whatever the store answers, in the store through restarts and failed reads while it answers plainly; no condition on sweeps, clocks, terms or amounts |
| `Histories.TakenWithin` | crates/agentd/src/spending.rs:480-758 | by the answers alone, for those same runs: what was charged in a period, less what was refused or credited, fits the budget and the number of payments at every point if and only if every charge taken or revived had room |
| `Histories.OrderlyHasRoom` | crates/agentd/src/spending.rs:630-667 | what a step takes has room when the allowance's terms stand, the charge's period is not before an earlier sweep's, every sweep was told of the allowance, and nothing is charged for zero before the read |
| `Histories.OrderlyHolds` | crates/agentd/src/spending.rs:480-758 | a run that meets those four conditions keeps all that was ever charged within the limits if and only if every charge a settle revives had room |
| `Excesses.RevivalExceeds` | crates/agentd/src/spending.rs:698-709 | set, charge, refuse, charge another, confirm the first: the budget is passed |
| `Excesses.ForgottenExceeds` | crates/agentd/src/spending.rs:733-758 | charge, confirm, sweep, charge again: twice the budget was taken, whenever the sweep forgets the charge |
| `Excesses.UntoldSweepExceeds` | crates/agentd/src/spending.rs:733-758 | as when the sweep is not told of the allowance |
| `Excesses.ClockBackExceeds` | crates/agentd/src/spending.rs:733-758 | or when the clock then goes back a day |
| `Excesses.OverwrittenExceeds` | crates/agentd/src/spending.rs:541-729 | charge, confirm, restart, a failed read, a charge of zero to a boundless allowance by the same operation, a good read, charge again: twice the budget was taken, with no sweep and a store that answers plainly |
| `Excesses.StrayExceeds` | crates/agentd/src/spending.rs:716-729 | a charge the degraded store kept all the same, another in its room, a restart: the budget is passed |
| `Spending.UnreadRefusesExactly` | crates/agentd/src/spending.rs:541-550 | until the stored charges are read, a charge passes if and only if it is of zero, the budget is the greatest number, payments are unlimited and the other limits hold |
| `Histories.UnreadTakesNothing` | crates/agentd/src/spending.rs:541-550 | so no positive amount is charged before that read |
| `Spending.SweepKeepsUsage` | crates/agentd/src/spending.rs:733-758 | a sweep leaves the usage of every allowance it was told of the same, now and at every later instant |
| `Spending.SweepKeepsSent` | crates/agentd/src/spending.rs:733-758 | a sweep never removes a charge on its way, nor one whose delete failed |
| `Spending.DeleteAll` | crates/agentd/src/spending.rs:746-757 | the deletes take out of memory exactly the stale charges whose delete was reported done, and count them |
| `Spending.Spending.constructor` | crates/agentd/src/spending.rs:480-488 | a ledger starts empty and unread over its store |
| `Spending.Spending.UsageOf` | crates/agentd/src/spending.rs:534-570 | usage is the sum of what counts plus the other rail's, or everything while unread |
| `Spending.Spending.PutCharge` | crates/agentd/src/spending.rs:716-729 | a charge enters memory only when the store kept it, undegraded |
| `Spending.Spending.TakeCharge` | crates/agentd/src/spending.rs:630-667 | the state and the answer are those of the charge step the run theorems are about |
| `Spending.Spending.Settle` | crates/agentd/src/spending.rs:698-709 | the state is that of the settle step; a credited charge never moves |
| `Spending.Spending.SettleFinal` | crates/agentd/src/spending.rs:675-694 | the state and the reported move are those of the settle_final step |
| `Spending.Spending.Sweep` | crates/agentd/src/spending.rs:733-758 | the state is that of the sweep step, and the count is how many charges went |
| `Spending.Spending.SetAllowances` | crates/agentd/src/spending.rs:576-587 | with an allowance in force, a store not yet read is read into the ledger; an error until it was |
| `Tasks.PollInterval` | crates/mcp/src/tasks.rs:48-53 | the server's interval where it lies between the floor and the ceiling, the nearer of the two otherwise, two seconds when it names none |
| `Tasks.AskOf` | crates/mcp/src/tasks.rs:90-114 | anything but an elicitation is unsupported; a form, or no mode, is for the person; any other mode is declined |
| `Tasks.ElicitResult` | crates/mcp/src/tasks.rs:117-124 | an acceptance keeps its content, a decline is a decline, anything else cancels |
| `Tasks.NewAsks` | crates/mcp/src/tasks.rs:194-202 | the requests whose key was not answered, each exactly once, in the order of the requests |
| `Tasks.Tracker.Observe` | crates/mcp/src/tasks.rs:188-205 | another task's news and news of an ended task change nothing; otherwise the new requests are exactly those not yet answered, in their order; an ended task stays ended |
| `Tasks.Tracker.GiveAnswer` | crates/mcp/src/tasks.rs:164-167 | the key is answered and its answer waits to be acknowledged |
| `Tasks.Tracker.ReleaseUnsent` | crates/mcp/src/tasks.rs:179-183 | nothing stays unsent, and exactly the unsent keys may be asked again |
| `Follow.PollBackoffShape` | crates/mcp/src/client.rs:809-812 | the pause after failures doubles from one second and stays at 256 seconds |
| `Follow.Client.Pause` | crates/mcp/src/client.rs:1107-1119 | it sleeps all of the time unless `stop` says so, and not at all once `stop` had |
| `Follow.Client.WaitFor` | crates/mcp/src/client.rs:1123-1149 | it returns the person's answer, or nothing only once the deadline passed or `stop` said so, and does not sleep past the deadline |
| `Follow.Client.SendAnswers` | crates/mcp/src/client.rs:904-926 | every unsent answer goes out in one request, and what was not acknowledged stays unsent; only an invalid-parameters refusal loses the task |
| `Follow.Client.Answer` | crates/mcp/src/client.rs:863-894 | a form goes to the person and their words come back; anything else declinable, or nobody to ask, is declined |
| `Follow.Client.AnswerAsks` | crates/mcp/src/client.rs:852-898 | requests are answered in turn and sent; a key left to the person means the deadline or `stop` was reached; an undeclared request cancels the task, once |
| `Follow.Client.NextBound` | crates/mcp/src/client.rs:809-827 | there is no poll when the deadline comes before the wait is over or `stop` had said so, and none else is left out but for `stop`; otherwise it goes out after the wait, with the time left until the deadline, 30 seconds at most |
| `Follow.Client.AskServer` | crates/mcp/src/client.rs:827-845 | one poll: only an invalid-parameters refusal disowns the task, only another refusal than an internal error fails it |
| `Follow.Client.Decide` | crates/mcp/src/client.rs:803-826 | a task that is over ends the follow, one past its time gives it up, and without time left it is open; otherwise it is polled after its wait |
| `Follow.Client.Learn` | crates/mcp/src/client.rs:827-845 | the task becomes the server's word on it, failures are counted up or wiped out, and what is asked for is what the task wants to know |
| `Follow.Client.Attend` | crates/mcp/src/client.rs:801-802 | unless the deadline or `stop` was reached no request is left unanswered; an undeclared one gives the task up |
| `Follow.Client.Round` | crates/mcp/src/client.rs:801-846 | one round keeps the books, or ends the follow as it must |
| `Follow.Client.Poll` | crates/mcp/src/client.rs:789-847 | books, log and tracker stay in balance through every round: the tracker holds the last word of the log on the task; every poll is of a task not over, not past its time and with no request unanswered, after the wait that its failures call for, which begins when the wait before is over, and with the time the deadline leaves; a follow with a deadline ends within the rounds its bound allows |
| `Follow.OverIsLast` | crates/mcp/src/client.rs:803-805 | a task heard to be over is polled no more |
| `Follow.Client.FollowTask` | crates/mcp/src/client.rs:765-787 | whatever the server and the person do: no key is asked twice nor one answered before; a task returned open has nothing unsent and its answered keys are the old ones and the acknowledged ones; only the person's words or a decline are ever sent, and no form is declined when there is a person to ask; a task that is over is returned as ended unless disowned, and one is returned open only once the deadline or `stop` came, and not while there was time for another poll; one cancel for expired, failed and unsupported, none otherwise; unknown only when the server said so, and a task returned open was disowned if and only if the last update heard so |
| `Follow.Client.CallTask` | crates/mcp/src/client.rs:626-673 | every bounded call that becomes a task ends; if any reply, or the seed, says it is over, the call ends so (or unknown) and nothing is cancelled; otherwise exactly one `tasks/cancel` unless it was given up as unknown; it is not returned open while there was time for another poll; a task the server disowned is cancelled all the same if and only if it was returned open and its last update heard so |
| `Redial.Backoff` | crates/mcp/src/client.rs:81-83 | every wait lies between 1 s and 30 s |
| `Redial.FlapsBounded` | crates/mcp/src/client.rs:469-505 | in every run of attempts made when due, `flaps` never exceeds six |
| `Redial.EightSessionsSpan` | crates/mcp/src/client.rs:433-505 | any eight successive sessions span at least 30 s, whatever attempts failed between |
| `Redial.RedialsAreBounded` | crates/mcp/src/client.rs:379-505 | both, from the first connection on |
| `Redial.WaitsNeverShrink` | crates/mcp/src/client.rs:482-488 | waits in a streak of failures never decrease |
| `Redial.WaitsDouble` | crates/mcp/src/client.rs:482-488 | each failure doubles the wait before it up to 30 s, the first waits 1 s or doubles what a short-lived session had set, and the next attempt is due exactly when the wait is over |
| `Redial.FailuresForgotten` | crates/mcp/src/client.rs:490-498 | a new session wipes out the failures before it |
| `Redial.GapExactly` | crates/mcp/src/client.rs:490-498 | re-dialed as soon as it is due, a session is followed by a gap of 30 s if and only if six flaps went before it, and the flaps are then back at none |
| `Redial.NeverSettles` | crates/mcp/src/client.rs:490-498 | a server that loses every session is back where it began after every seven re-dials and 61 s, for every number of rounds |
| `Redial.LongGapExactly` | crates/mcp/src/client.rs:490-498 | in that run the gap after the n-th re-dial reaches 30 s if and only if n leaves six when divided by seven |
| `Redial.Redialer.RedialWithin` | crates/mcp/src/client.rs:469-505 | the fields after an attempt are those of the schedule the run theorems are about |
| `Hangup.StepKeepsInv` | crates/mcp/src/http.rs:364-392 | every atomic step of every thread keeps the invariant of lock, flag and slot |
| `Hangup.HangUpShutsArmed` | crates/mcp/src/http.rs:364-392 | in every interleaving, once all started hang-ups returned, no connection is in the slot and one still armed has been shut down; without a hang-up none ever is |
| `Hangup.LaterArmsRefused` | crates/mcp/src/http.rs:377-385 | after a hang-up began, no later `arm` succeeds: each is refused and its connection shut down |
| `Hangup.SomeCallCanStep` | crates/mcp/src/http.rs:364-392 | while a call is under way, some call can take its next step |
| `Hangup.HangUpAlone` | crates/mcp/src/http.rs:364-370 | a hang-up nobody interrupts empties the slot and shuts what was in it |
| `Hangup.ArmAlone` | crates/mcp/src/http.rs:377-385 | an `arm` nobody interrupts fills the slot, or shuts its connection when the flag is up |
| `Hangup.Handle.HangUp` | crates/mcp/src/http.rs:364-370 | the call as written is its four atomic steps in a row |
| `Hangup.Handle.Arm` | crates/mcp/src/http.rs:377-385 | the call as written is its three atomic steps in a row, true if and only if the flag was down |
| `Hangup.Handle.Disarm` | crates/mcp/src/http.rs:390-392 | the call as written is its two atomic steps in a row |
| `Challenges.ReadChallenges` | crates/mcp/src/http.rs:216-285 | the index loop ends in bounds on every input, equals the recursive parser, and gives back every list of challenges that was written |
| `Challenges.ReadQuoted` | crates/mcp/src/http.rs:263-273 | the quoted-string loop equals the recursive unquoting, an unclosed string included |
| `Challenges.UnquoteEscaped` | crates/mcp/src/http.rs:262-273 | unquoting undoes the escaping of section 5.6.4 of RFC 9110 for every text |
| `Challenges.RoundTrip` | crates/mcp/src/http.rs:216-285 | every list with token names, whatever text its parameters hold, written per section 11.6.1 of RFC 9110, parses back to itself |
| `Spellings.ReadsBack` | crates/mcp/src/http.rs:216-285 | every spelling section 11.6.1 of RFC 9110 allows, values bare or quoted, any blanks around `=`, any blanks and commas between the parts, padded credentials passed over, reads back as the list it spells |
| `Spellings.UnquoteQuoted` | crates/mcp/src/http.rs:262-273 | whichever characters are escaped, unquoting gives the value |
| `Spellings.UnquoteOpen` | crates/mcp/src/http.rs:263-273 | a string that is not closed runs to the end |
| `Spellings.CredentialExactly` | crates/mcp/src/http.rs:243-256 | a credential is passed over if and only if it has two `=` or one that ends the header; otherwise it is read as a parameter without text or a scheme |
| `Spellings.StraysAreSkipped` | crates/mcp/src/http.rs:228-237 | blanks, commas and stray quotes or `=` between parts are nothing |
| `Spellings.DelimitersExactly` | crates/mcp/src/http.rs:219-224 | the scan stops at five characters and at none a token may hold |
| `Pointers.UnescapeInverts` | crates/agentd/src/jsonschema.rs:548-560 | unescaping undoes escaping for every key |
| `Pointers.EscapeByChar` | crates/agentd/src/jsonschema.rs:548-550 | escaping turns `~` into `~0`, `/` into `~1` and leaves every other character |
| `Pointers.ParseDecimal` | crates/agentd/src/jsonschema.rs:374-563 | an index in decimal reads back as itself |
| `Pointers.IndexExactly` | crates/agentd/src/jsonschema.rs:562-563 | a text reads as an index if and only if it is its decimal, after any zeros and a plus sign or none, and fits the word |
| `Pointers.Resolve` | crates/agentd/src/jsonschema.rs:553-568 | the cursor loop resolves what the recursive reading resolves |
| `Pointers.PointerResolvesStripped` | crates/agentd/src/jsonschema.rs:553-568 | what any written pointer resolves to: what its texts lead to without the leading empty keys |
| `Pointers.PointerComesBack` | crates/agentd/src/jsonschema.rs:548-568 | the pointer of a path that does not go on from an empty first key resolves to the node (section 4 of RFC 6901) |
| `Pointers.PointerComesBackExactly` | crates/agentd/src/jsonschema.rs:548-568 | pointers of a path come back in every document if and only if the path does not go on from an empty first key |
| `Keywords.ForeignReference` | crates/agentd/src/jsonschema.rs:91-102 | a reference into another document is that document's own local reference, wherever it is made from; without the document it holds of nothing |
| `Keywords.ReferrerHasNoSay` | crates/agentd/src/jsonschema.rs:91-102 | the referring document has no say in what a reference by name means |
| `Keywords.DocumentReference` | crates/agentd/src/jsonschema.rs:91-102 | a bare document name holds if and only if the caller has the document and it holds, in its own context, one level on |
| `Keywords.LocalReference` | crates/agentd/src/jsonschema.rs:91-102 | a local reference written for a path stands for the schema at that path |
| `Keywords.SiblingsApply` | crates/agentd/src/jsonschema.rs:166-172 | a schema with a reference holds if and only if the reference and everything beside it do |
| `Keywords.PlainSchemas` | crates/agentd/src/jsonschema.rs:151-165 | `true` takes everything; `false` and what is no schema nothing |
| `Keywords.TypeKeyword` | crates/agentd/src/jsonschema.rs:178-196 | `type` takes exactly the values of that type, whole numbers for `integer`, and unknown names take all |
| `Keywords.TypesKeyword` | crates/agentd/src/jsonschema.rs:178-196 | a list of types takes what one of them takes |
| `Keywords.EnumKeyword` | crates/agentd/src/jsonschema.rs:198-206 | `enum` takes exactly the values listed |
| `Keywords.ConstKeyword` | crates/agentd/src/jsonschema.rs:207-211 | `const` takes exactly its value |
| `Keywords.NullableKeyword` | crates/agentd/src/jsonschema.rs:173-176 | with `nullable` a null is taken, whatever else is asked |
| `Keywords.OnlyTrueIsNullable` | crates/agentd/src/jsonschema.rs:173-176 | and with nothing but `true` |
| `Keywords.MinLengthKeyword` | crates/agentd/src/jsonschema.rs:429-434 | `minLength` holds texts to that many characters or more |
| `Keywords.MaxLengthKeyword` | crates/agentd/src/jsonschema.rs:435-439 | `maxLength` to that many or fewer |
| `Keywords.MinimumKeyword` | crates/agentd/src/jsonschema.rs:465-479 | `minimum` and `exclusiveMinimum` bound numbers from below, the one with its value and the other without |
| `Keywords.MaximumKeyword` | crates/agentd/src/jsonschema.rs:470-484 | `maximum` and `exclusiveMaximum` from above |
| `Keywords.MultipleKeyword` | crates/agentd/src/jsonschema.rs:485-492 | `multipleOf` takes exactly the numbers no further from a multiple than a thousand-millionth of the factor |
| `Keywords.WholeMultiples` | crates/agentd/src/jsonschema.rs:485-492 | of whole numbers these are the multiples alone, for factors below a thousand million; above that also those whose remainder, or what it lacks of the factor, is as small as that |
| `Keywords.PatternKeyword` | crates/agentd/src/jsonschema.rs:440-454 | `pattern` asks of texts what the pattern says |
| `Keywords.PlainMatches` | crates/agentd/src/jsonschema.rs:580-596 | a plain text matches where it occurs |
| `Keywords.FromStart` | crates/agentd/src/jsonschema.rs:580-596 | with `^`, at the beginning |
| `Keywords.ToEnd` | crates/agentd/src/jsonschema.rs:580-596 | with `$`, at the end |
| `Keywords.WholeText` | crates/agentd/src/jsonschema.rs:580-596 | with both, the whole |
| `Keywords.LiteralExactly` | crates/agentd/src/jsonschema.rs:575-578 | between its anchors a pattern is taken by the letter if and only if it is `.*`, which matches everything, or has no special character |
| `Keywords.OtherPatterns` | crates/agentd/src/jsonschema.rs:440-454 | what has no literal meaning is let pass without a resolver, and held to the resolver's check with one, a missing check failing |
| `Keywords.RequiredKeyword` | crates/agentd/src/jsonschema.rs:301-309 | `required` takes objects with every name listed |
| `Keywords.DependentRequiredKeyword` | crates/agentd/src/jsonschema.rs:348-360 | `dependentRequired` takes objects in which a member that is there has what it needs |
| `Keywords.MinPropertiesKeyword` | crates/agentd/src/jsonschema.rs:338-342 | `minProperties` counts members from below |
| `Keywords.MaxPropertiesKeyword` | crates/agentd/src/jsonschema.rs:343-347 | `maxProperties` from above |
| `Keywords.MemberKeywords` | crates/agentd/src/jsonschema.rs:310-336 | `properties`, `patternProperties` and `additionalProperties` together: a member is held to its own schema, to that of every pattern it matches, and if neither is there to the one for the rest |
| `Keywords.ItemKeywords` | crates/agentd/src/jsonschema.rs:371-388 | `prefixItems` and `items` together: the first items each to their own schema, those after them to the one for the rest |
| `Keywords.AllItemsKeyword` | crates/agentd/src/jsonschema.rs:371-388 | `items` alone is for every item |
| `Keywords.ItemCountKeywords` | crates/agentd/src/jsonschema.rs:389-398 | `minItems` and `maxItems` count items |
| `Keywords.UniqueKeyword` | crates/agentd/src/jsonschema.rs:399-409 | `uniqueItems` takes arrays without two equal items |
| `Keywords.ContainsKeyword` | crates/agentd/src/jsonschema.rs:410-419 | `contains` takes arrays with an item that is taken |
| `Keywords.ListCombinators` | crates/agentd/src/jsonschema.rs:221-247 | `allOf` takes what all take, `anyOf` what one takes |
| `Keywords.OneOfKeyword` | crates/agentd/src/jsonschema.rs:248-271 | `oneOf` takes what exactly one takes |
| `Keywords.NotKeyword` | crates/agentd/src/jsonschema.rs:272-278 | `not` takes what is not taken |
| `Keywords.IfKeyword` | crates/agentd/src/jsonschema.rs:279-290 | `if` chooses between `then` and `else` |
| `CutOff.TriedAgrees` | crates/agentd/src/jsonschema.rs:226-247 | alternatives tried up to the first that holds are the same at two cut-offs that agree on them |
| `CutOff.NodeAgrees` | crates/agentd/src/jsonschema.rs:143-291 | cut-offs that agree on every goal a node visits agree on the node, and visit the same goals |
| `CutOff.VerdictStable` | crates/agentd/src/jsonschema.rs:126-291 | a verdict reached without touching the cut-off is the verdict at every larger one, untouched there too |
| `CutOff.ReferenceCycleFails` | crates/agentd/src/jsonschema.rs:166-172 | references that lead round in a circle hold of nothing at any cut-off and always reach it |
| `Validator.Validate` | crates/agentd/src/jsonschema.rs:29-78 | `Ok` if and only if the boolean reading holds within 65 levels; a reference to another document is answered by that document in its own context, and the referring one has no say; every violation names a node of the value; a verdict for which the cut-off was not reached is the same at every larger one |
| `Validator.Walk` | crates/agentd/src/jsonschema.rs:126-141 | violations collected before stay; none is added if and only if the reading holds; the depth is restored; whether the cut-off was reached is exactly told |
| `Validator.WalkInner` | crates/agentd/src/jsonschema.rs:143-291 | the same of one node, `$ref` and `nullable` first |
| `Validator.Reference` | crates/agentd/src/jsonschema.rs:166-172 | the same of `$ref`: unresolvable fails, a target is walked in its own document |
| `Validator.WalkBody` | crates/agentd/src/jsonschema.rs:177-291 | the same of the keywords of a node |
| `Validator.ObjectKeywords` | crates/agentd/src/jsonschema.rs:293-361 | the same of the object keywords |
| `Validator.Property` | crates/agentd/src/jsonschema.rs:313-336 | the same of one member: own schema, matching patterns, or the one for uncovered members |
| `Validator.ArrayKeywords` | crates/agentd/src/jsonschema.rs:363-420 | the same of the array keywords |
| `Validator.Items` | crates/agentd/src/jsonschema.rs:373-388 | the same of the items, prefix first |
| `Validator.AnyContained` | crates/agentd/src/jsonschema.rs:410-419 | found if and only if some item satisfies the schema; items after the first that does are not tried |
| `Validator.UniqueCheck` | crates/agentd/src/jsonschema.rs:399-409 | a violation is added if and only if two items are equal |
| `Validator.StringKeywords` | crates/agentd/src/jsonschema.rs:422-455 | a violation is added if and only if a string keyword fails |
| `Validator.NumberKeywords` | crates/agentd/src/jsonschema.rs:457-493 | a violation is added if and only if a number keyword fails |
| `Validator.RequiredCheck` | crates/agentd/src/jsonschema.rs:301-309 | a violation is added if and only if a required member is missing |
| `Validator.DependentCheck` | crates/agentd/src/jsonschema.rs:348-360 | a violation is added if and only if a present member lacks one it needs |
| `Validator.Alternation` | crates/agentd/src/jsonschema.rs:221-271 | the same of allOf, anyOf and oneOf |
| `Validator.Conditions` | crates/agentd/src/jsonschema.rs:272-290 | the same of not and if/then/else |
| `Graphs.LeftOutExactly` | web/lib/validate.js:177-182 | an order that respects the edges and leaves out only blocked steps leaves out exactly those on a cycle or downstream of one |
| `Graphs.CompleteExactly` | web/lib/validate.js:177-182 | such an order is complete if and only if the graph has no cycle |
| `Kahn.PendingStep` | web/lib/validate.js:82-89 | finishing a step takes exactly its edges off the in-degrees |
| `Kahn.Release` | web/lib/validate.js:85-88 | the in-degrees fall by the edges taken off, and the queue gains exactly the steps left at zero, once each |
| `Kahn.TopoOrder` | web/lib/validate.js:72-91 | the order has no repeats, puts every known source before its target, and leaves out only steps that wait for others left out |
| `Kahn.CycleRuleExact` | web/lib/validate.js:177-182 | the steps the rule reports are those on or downstream of a cycle; none if and only if the graph is acyclic with distinct ids |
| `Workflow.Pass` | web/lib/validate.js:188-196 | one pass adds only reached steps, and one that changes nothing leaves a closed set |
| `Workflow.ReachableSteps` | web/lib/validate.js:184-197 | the fixpoint ends, and is exactly the set reachable from the starts |
| `Workflow.EdgeProblems` | web/lib/validate.js:158-170 | exactly the violations of the edge rules are reported |
| `Workflow.AllReached` | web/lib/validate.js:158-200 | in a graph without missing or unknown dependencies or cycles every step is reached |
| `Workflow.Rules` | web/lib/validate.js:158-200 | what each rule reports: the edge rules exactly their violations, the cycle rule exactly the steps on or downstream of a cycle, by name and in its list, the reachability rule exactly the steps not reached |
| `Workflow.SoundHasNoProblem` | web/lib/validate.js:158-200 | a sound graph violates no edge rule, has a start and reaches every step |
| `Workflow.Validate` | web/lib/validate.js:110-200 | no steps is reported as such; these rules are silent if and only if the graph is sound; the start and reachability rules never fire alone |
| `Layout.LongestStep` | web/lib/workflowIo.js:141-150 | one more than the greatest rank before a node is the length of its longest chain |
| `Layout.RanksClimb` | web/lib/workflowIo.js:141-150 | every edge goes to a strictly higher rank |
| `Layout.RankOf` | web/lib/workflowIo.js:141-150 | it ends on every graph; on an acyclic one it returns the longest chain and the memo stays right |
| `Layout.RankAll` | web/lib/workflowIo.js:131-151 | every node gets a rank, on an acyclic graph that of its longest chain |
| `Layout.Layout` | web/lib/workflowIo.js:127-160 | nodes stand in the column of their rank, below earlier ones of it; on acyclic graphs the ranks are the longest chains and the only such; edges then lead to higher columns; no two nodes share a place when both steps are positive |
| `Base64.BytesOfSextets` | crates/agentd/src/b64.rs:14-37 | regrouping bytes into six bits and back is the identity |
| `Base64.LetterTables` | crates/agentd/src/b64.rs:11-12 | the letters are those of the two tables |
| `Base64.ShiftIn` | crates/agentd/src/b64.rs:66-71 | pushing six bits into the wrapping 32-bit accumulator yields the next byte of the regrouping, whatever overflowed before |
| `Base64.Encode` | crates/agentd/src/b64.rs:14-37 | the chunk loop writes the alphabet's letters of the regrouped bytes, padded to four or not |
| `Base64.UrlDecode` | crates/agentd/src/b64.rs:51-74 | the loop decodes what the letters before the first `=` say, skipping blanks, and fails on any other character |
| `Base64.StdDecode` | crates/agentd/src/b64.rs:79-105 | the loop decodes strictly, and fails on a bad length, bad padding or another character |
| `Base64.UrlDecodeInverts` | crates/agentd/src/b64.rs:14-74 | `url_decode` undoes `url_nopad` and `std_pad` on every byte string (sections 4 and 5 of RFC 4648) |
| `Base64.StdDecodeInverts` | crates/agentd/src/b64.rs:14-105 | `std_decode` undoes `std_pad` on every byte string |
| `Base64.StdTakesExactly` | crates/agentd/src/b64.rs:79-105 | `std_decode` takes the standard letters of whole groups, one letter alone excepted, with no padding or all of it, decodes them as grouped, and takes nothing else |
| `Base64.UrlDecodeByChar` | crates/agentd/src/b64.rs:51-74 | `url_decode` goes to the first `=`, passes over line ends and spaces, reads the letters of either alphabet and fails on anything else |
| `Base64.SextetsOfBytes` | crates/agentd/src/b64.rs:85-103 | regrouping six bits into bytes and back is the identity if and only if the spare bits are zero |
| `Base64.CanonicalExactly` | crates/agentd/src/b64.rs:76-105 | a text `std_decode` takes is the padded encoding of its bytes if and only if its length is a multiple of four and its spare bits are zero |
| `Base64.TwoTextsOneByte` | crates/agentd/src/b64.rs:76-105 | "QQ==", "QR==" and "QQ" decode alike |
| `Base64.StdDecodedIsUrlDecoded` | crates/agentd/src/b64.rs:51-105 | whatever `std_decode` accepts, `url_decode` decodes to the same bytes |

## Left out

- Validator.NumberKeywords: numbers are integers and exact reals; rounding of 64-bit floats is not modelled.
- Follow.Client.FollowTask: without a deadline a follow is seen up to any number of rounds (`Unfinished`), since it may go on for ever; a person who never answers is one who answers after the deadline.
- Kahn.TopoOrder: which of several orders a graph allows it gives is not stated.
- Hangup.Handle.HangUp: the object's calls are proved step by step only when left alone; interleavings are those of the step machine.
- Instants are unbounded; the last periods before the end of 64 bits are not modelled.
- Amounts are exact integers at 18 decimals: their decimal text, and the reading of one that does not parse as the greatest amount, are not modelled; nor are conversion between currencies and reports.
- The x402 ledger is an arbitrary usage; the store is a map with arbitrary replies; its keys and envelopes are not modelled, and a charge is kept under its joined id.
- Lock order and interleavings inside one public call of the ledger (`settle_final` takes the lock twice) are not modelled.
- The wording of refusals and violations, and which failed alternative an anyOf or oneOf message quotes.
- Regex patterns with a resolver are an arbitrary table of checks.
- Members of JSON objects are gone through in any order.
- Text is a sequence of characters, one for each byte or character the code looks at: UTF-8 is not modelled.
- `check_schema`, the message and schema of an elicitation, and what a task's outcome means to the call.
- The editor's other rules: names, kinds, fields, the finish step, warnings.
- Sockets, TLS, HTTP framing, threads, the SDK and everything else in the repository: table lookups, clients and user interface that would add easy members only.
