# Verified models of the node's state and arithmetic cores

Each module models one core of the repository and proves what that core is for. Hashes, signatures,
clocks, randomness and other calls into unseen code are parameters: arbitrary functions, or arbitrary
draws. `dafny verify dfyconfig.toml` checks everything.

| files | core |
|---|---|
| `Denominations`, `CoinSelection` | choosing minted coins for a payment: exact payment by bounded greedy, change making, and the multi-phase alternative with less change |
| `AddrTables`, `AddrMan`, `AddrManager` | the address manager: two bucket tables, an id map, an address map, a random permutation and counters that stay in step; `AddrTables` and `AddrMan` say what each operation does to the tables as a value, `AddrManager` is the object that is updated in place |
| `AddrManCheck` | its consistency check, with its loops, against the invariant |
| `AddrManDisk`, `AddrManLoad`, `AddrManReload`, `AddrManHalfRead`, `AddrManFile` | its file: the format, what any file gives under any parameters, the round trip, what a stream that breaks off leaves, and the loops that write and read |
| `CoinsCache`, `CoinsViews` | the stack of write-back caches over the coin database, against one flat map for each level |
| `Coins`, `CoinsCodec`, `Compressor` | coin records, their encoding with a bit mask, variable-length integers, compressed amounts and scripts |
| `CheckQueue` | the parallel check queue as a transition system with one step for each critical section |
| `Base58` | base 58 with and without checksum, by conversion of digit buffers in place |
| `StakeModifier` | the selection of up to 64 blocks and the modifier made of their entropy bits |
| `MasternodeVotes`, `BlockPayee` | votes for the masternode to be paid with their tallies, and the payout |
| `Chain`, `LockedPages`, `LimitedMap` | the indexed chain, the page lock counts, the container with a limited size |
| `Arithmetic`, `Options`, `Sets` | shared vocabulary and arithmetic in small steps |

Operations that change state in the program are methods here, with the loops of the program; each is
proved equal to a function of the old state or against a property, and the laws are lemmas about these
functions. Where an operation is an object's, the object is a class whose `Valid()` is the invariant.

Where the code does not do what its documentation or its names promise, the model follows the code and
proves exactly when the promise holds:

- The spend limit of the coin selection may be exceeded (`src/denomination_functions.cpp:396-397`).
  A selection with change is within the limit if and only if some payment from the held coins is, which
  `FeasibleWhen` turns into a condition on the arguments; `LimitCanBeExceeded` is a concrete payment. A
  negative limit does not limit exact payments, since it is converted to an unsigned number.
- The coins held are counted among the mature mints of the wallet's own seed
  (`src/wallet/wallet.cpp:1546`), while the list to pay from has all unused ones
  (`src/wallet/wallet.cpp:4134`). So an empty selection may hide a payment that the list could make:
  `HiddenPayment` says exactly when, and `ImmatureMintsHidePayment` is a concrete case.
- A coin record with a negative version or height does not survive being stored: `CoinsSurvive` says so
  exactly, and `NegativeVersion` has -1 come back as 127. A comment in the program notes the defect
  (`src/main.cpp:2493-2497`).
- Of the encodings listed for variable-length integers (`src/serialize.h:387-392`), those of 16511 and 65535
  belong to 32895 and 65407 (`VarIntExamples`). The records documented for coins (`src/coins.h:42-73`) have
  other header codes here, because the code uses one more bit (`FirstExample`, `SecondExample`).
- Of the encodings listed for variable-length integers (`src/serialize.h:387-392`), those of 16511 and 65535
  belong to 32895 and 65407 (`VarIntExamples`). The records documented for coins (`src/coins.h:42-73`) have
  other header codes here, because the code uses one more bit (`FirstExample`, `SecondExample`).
- Of the encodings listed for variable-length integers (`src/serialize.h:387-392`), those of 16511 and 65535
  belong to 32895 and 65407 (`VarIntExamples`). The records documented for coins (`src/coins.h:42-73`) have
  other header codes here, because the code uses one more bit (`FirstExample`, `SecondExample`).
- Of the encodings listed for variable-length integers (`src/serialize.h:387-392`), those of 16511 and 65535
  belong to 32895 and 65407 (`VarIntExamples`). The records documented for coins (`src/coins.h:42-73`) have
  other header codes here, because the code uses one more bit (`FirstExample`, `SecondExample`).
- Of the encodings listed for variable-length integers (`src/serialize.h:387-392`), those of 16511 and 65535
  belong to 32895 and 65407 (`VarIntExamples`). The records documented for coins (`src/coins.h:42-73`) have
  other header codes here, because the code uses one more bit (`FirstExample`, `SecondExample`).
- Of the encodings listed for variable-length integers (`src/serialize.h:387-392`), those of 16511 and 65535
  belong to 32895 and 65407 (`VarIntExamples`). The records documented for coins (`src/coins.h:42-73`) have
  other header codes here, because the code uses one more bit (`FirstExample`, `SecondExample`).
- Of the encodings listed for variable-length integers (`src/serialize.h:387-392`), those of 16511 and 65535
  belong to 32895 and 65407 (`VarIntExamples`). The records documented for coins (`src/coins.h:42-73`) have
  other header codes here, because the code uses one more bit (`FirstExample`, `SecondExample`).
- `GetSerializeSize` of a coin record multiplies by 8 where `Serialize` multiplies by 16
  (`src/coins.h:184,208`), so the predicted size is only a lower bound. `PredictedSize` and
  `PredictedSizeByCount` say when it is exact, and `SizeUnderCounted` is a record of which it is not.
- `limitedmap` is documented to keep the elements with the highest value. An insertion at the limit
  drops the least earlier element even if the new one is lower (`InsertKeepsHighest`,
  `HigherElementDropped`), keeps one element fewer than the limit, and does not evict at all once the
  size is at or above the limit (`InsertBound`, `LimitThenInsert`). With a limit of one, the first
  insertion would evict from an empty index, so it is excluded.
- `FillBlockPayee` adds the payment on top of the stake reward when the first stake output is a mint or
  there is none; the total is kept if and only if this is not so or the payment is zero
  (`MintStakeDoesNotPay` is a concrete block).
- `Clear` of the address manager does not empty its maps. It gives a well-formed manager if and only if
  there were no entries (`ClearedWhenEmpty`); reading over entries that the file does not reach leaves a
  broken one (`LeftoverBreaks`). Start-up reads once, into a new object (`src/net.cpp:1697-1698`), and
  `Unserialize` is modelled for that.
- A stream of the address manager whose counts do not fit its contents leaves the object half read. Start-up
  compares the hash of the whole file before it reads the manager (`src/net.cpp:2008-2011`), so a file that
  is merely cut off is refused with the object untouched; a file whose hash matches although its counts do not
  fit gets that far, and start-up goes on with what it left (`src/net.cpp:1697-1699`). `HalfRead` says for
  every stream exactly when that is well formed, in terms of the stream; `NumberMissing` and `NumberThere` are
  concrete streams of either kind.
- `Check_` looks up addresses with `[]`, so it enters unknown ones with the id 0 and accepts them for the
  entry 0; `CheckIsInvariant` says what it does not look at.
- The loops of the page locks end if and only if the address behind the last page of the range can be
  represented (`LoopEnds`); `LockRange` and `UnlockRange` are modelled for these ranges.

## Model

| member | source | states |
|---|---|---|
| `CoinSelection.SelectMintsFromList` | src/denomination_functions.cpp:405-437 | For every positive target that is a multiple of the smallest coin, every limit and every holding that counts some of the unused mints of the list: the selection is made of distinct unused mints, of each denomination exactly as many as were chosen, and its value is the sum of their amounts; that value is the target plus exactly the returned change coins; an exact payment uses bounded greedy's counts; with change, the coins follow the rules of `CalculateChange`; a selection with change is within the limit if and only if some payment from the held coins is, and an empty selection leaves none within it |
| `CoinSelection.SelectionIsBest` | src/wallet/wallet.cpp:4116-4145 | If all unused mints are held, an empty selection means that nothing within the limit could pay, and a selection is within the limit if and only if some payment is |
| `CoinSelection.HeldIsPart` | src/wallet/wallet.cpp:1546 | Whatever the held coins can pay within a limit, all unused mints can |
| `CoinSelection.HiddenPayment` | src/wallet/wallet.cpp:4134 | An empty selection hides a payment that the list could make within the limit if and only if greedy finds no exact payment within the limit, the held coins fail, and all unused mints paid upwards suffice within the limit |
| `CoinSelection.ImmatureMintsHidePayment` | src/wallet/wallet.cpp:1546 | A concrete hidden payment: with two mints of 5000 in the list that are not held, nothing is selected for 5001 and a limit of two |
| `CoinSelection.CalculateChange` | src/denomination_functions.cpp:310-399 | The coins chosen are held, and are those of the rule: without minimising, the smallest held coin above the target alone, or paying upwards if no held coin is above it; with minimising, the alternative instead if and only if it has less change and fits the limit. A positive count means that they are worth more than the target, that the excess is exactly that many change coins, and that the limit is kept if and only if any payment within it exists; a failure, that none does |
| `CoinSelection.PayWithOneCoin` | src/denomination_functions.cpp:329-354 | The branch with a coin above the target pays with the least such coin alone, or with the alternative if and only if minimising is wanted and the alternative has less change and fits the limit; either settles the payment |
| `CoinSelection.PayWithSeveralCoins` | src/denomination_functions.cpp:356-398 | The branch without such a coin pays upwards, or with the alternative if and only if minimising is wanted and the alternative has less change and fits the limit; either settles the payment |
| `CoinSelection.MinimizeChange` | src/denomination_functions.cpp:213-302 | The result is the alternative if it reaches the target with less change within the limit, and the coins given otherwise, with the change count of whichever is taken |
| `CoinSelection.FindAlternative` | src/denomination_functions.cpp:213-288 | The alternative is the greedy payment with coins below the given one, then one filling coin, the smallest that covers what is left, or else nothing, with coins both paid and given back removed |
| `CoinSelection.ChangeRuleMeans` | src/denomination_functions.cpp:323-397 | What the rule means for any coins: without minimising, exactly one coin is used if a held coin exceeds the target, and no smaller held coin exceeds it; with minimising, the change is never more than without; an alternative is used only with less change and within the limit |
| `CoinSelection.MinimizeSeveral` | src/denomination_functions.cpp:376-397 | Against paying upwards, the alternative below the highest held coin is taken exactly if it has less change and fits the limit |
| `CoinSelection.MinimizeFirstPhase` | src/denomination_functions.cpp:221-246 | Greedy payment that always leaves something to pay |
| `CoinSelection.MinimizeSecondPhase` | src/denomination_functions.cpp:248-260 | Coins are added from the smallest on; if the target is still not reached, every unused coin is at most what is left |
| `CoinSelection.RemoveOverlap` | src/denomination_functions.cpp:268-283 | Removing coins that are both paid and given back keeps the coins held and whether the target is reached |
| `CoinSelection.PayUpward` | src/denomination_functions.cpp:356-374 | The coin by coin loop computes `Upward` |
| `CoinSelection.GetIdealSpends` | src/denomination_functions.cpp:93-117 | It succeeds exactly if some choice of unused mints is worth the target, and then uses bounded greedy's coins, the fewest of all such choices |
| `CoinSelection.SpendMints` | src/denomination_functions.cpp:99-114 | The loops over denominations and mints compute bounded greedy over the counts of unused mints |
| `CoinSelection.GetSpendCoins` | src/denomination_functions.cpp:40-62 | The loops compute bounded greedy |
| `CoinSelection.GetChange` | src/denomination_functions.cpp:67-87 | The loops compute unbounded greedy |
| `CoinSelection.GetSpends` | src/denomination_functions.cpp:122-142 | The loop ends, and picks unused mints only, each once, of each denomination exactly the requested number, the earliest of the list first; the value returned is the sum of their amounts |
| `CoinSelection.SpendsMeans` | src/denomination_functions.cpp:122-142 | Each mint spent is an unused one of the list, at a place of its own, higher denominations first, and no unused mint of its denomination before it is passed over |
| `CoinSelection.GetMaxDenomHeld` | src/denomination_functions.cpp:25-36 | The highest denomination held, or none |
| `CoinSelection.GetNextLowerDenomHeld` | src/denomination_functions.cpp:200-211 | The highest held denomination below the given one, or none |
| `CoinSelection.GetNumberOfCoinsUsed` | src/denomination_functions.cpp:12-20 | The sum of the counts |
| `CoinSelection.GreedyIsIdeal` | src/denomination_functions.cpp:93-117 | Bounded greedy over a divisibility chain reaches every reachable amount, with the fewest coins |
| `CoinSelection.NothingToFillIsExact` | src/denomination_functions.cpp:248-260 | If the second phase finds nothing to fill although the coins suffice, paying upwards hits the target exactly, so the alternative below the target never wins |
| `CoinSelection.AlternativeSettles` | src/denomination_functions.cpp:285-302 | A taken alternative settles the payment |
| `CoinSelection.UpwardSettles` | src/denomination_functions.cpp:356-378 | Paying upwards settles the payment |
| `CoinSelection.OneCoinSettles` | src/denomination_functions.cpp:329-354 | One coin above the target settles the payment |
| `CoinSelection.UpwardOvershoots` | src/denomination_functions.cpp:323-331 | A held coin above the target is overshot by paying upwards |
| `CoinSelection.FeasibleWhen` | src/denomination_functions.cpp:405-437 | Exactly when a payment within the limit exists: the coins suffice and paying upwards stays within the limit |
| `CoinSelection.TopCoinsExceedLimit` | src/denomination_functions.cpp:396-397 | A whole family of payments in which all `n` held coins are selected although the limit is `n - 1` |
| `CoinSelection.LimitCanBeExceeded` | src/denomination_functions.cpp:396-397 | A concrete payment: 5001 from two held mints of 5000 with a limit of one selects both |
| `CoinSelection.FailureIsFinal` | src/denomination_functions.cpp:428-431 | An empty selection never hides a payment within the limit |
| `CoinSelection.BalancedExact` | src/denomination_functions.cpp:414-421 | An exact payment balances without change |
| `CoinSelection.BalancedWithChange` | src/denomination_functions.cpp:428-435 | Coins used are worth target plus change, and the change splits into exactly the returned number of coins |
| `Denominations.AmountsAreAChain` | src/libzerocoin/Denominations.h:15-27 | The eight amounts, written out, divide one another in order |
| `Denominations.GreedyIsBest` | src/denomination_functions.cpp:40-62 | Bounded greedy reaches the largest reachable amount not above the target, with the fewest coins |
| `Denominations.GreedyComplete` | src/denomination_functions.cpp:93-117 | Whatever exact amount some held coins reach, bounded greedy reaches, with no more coins |
| `Denominations.GreedyExact` | src/denomination_functions.cpp:285-287 | Coins that divide an amount add up to exactly that amount as soon as they suffice |
| `Denominations.GreedyWithin` | src/denomination_functions.cpp:52-60 | Greedy never uses more coins than held nor more value than the target |
| `Denominations.UpwardReaches` | src/denomination_functions.cpp:363-374 | Paying upwards reaches the target exactly if all coins together do |
| `Denominations.UpwardIsFewest` | src/denomination_functions.cpp:363-374 | No choice of coins worth the target has fewer coins than paying upwards |
| `Denominations.ChangeIsExact` | src/denomination_functions.cpp:67-87 | Change of a difference of multiples of the smallest coin is exact |
| `Denominations.ChangeProperties` | src/denomination_functions.cpp:67-87 | Change never exceeds the amount and leaves less than the smallest coin |
| `Denominations.ValueMultiple` | src/denomination_functions.cpp:67-87 | Every payment in coins is a multiple of the smallest coin |
| `AddrTables.SizeIsSum` | src/addrman.cpp:386-387 | The permutation has as many places as the two counters together |
| `AddrTables.SwapKeeps` | src/addrman.cpp:102-120 | Swapping two places keeps the whole invariant, and the assertions on the ids hold |
| `AddrTables.DeletedKeeps` | src/addrman.cpp:122-134 | Deleting an entry without references keeps the invariant; the last id gets its new position |
| `AddrTables.DroppedKeeps` | src/addrman.cpp:154-160 | Dropping one reference keeps the invariant with that entry in limbo, and the reference was there |
| `AddrTables.ClearedKeeps` | src/addrman.cpp:136-149 | Clearing a slot keeps the invariant; the assertion on the reference count holds |
| `AddrTables.ClearedRest` | src/addrman.cpp:136-149 | No other entry changes but in its place of the permutation |
| `AddrTables.PlacedKeeps` | src/addrman.cpp:303-307 | Entering an empty slot at the entry's own position keeps the invariant |
| `AddrTables.CreatedKeeps` | src/addrman.cpp:90-100 | A new entry gets an unused id at the end of the permutation |
| `AddrTables.UntriedKeeps` | src/addrman.cpp:176-179 | Taking an entry out of the "tried" table keeps the invariant up to its count |
| `AddrTables.TriedKeeps` | src/addrman.cpp:194-196 | Entering the "tried" table at the canonical place keeps the invariant |
| `AddrTables.StatsKeep` | src/addrman.cpp:214-219 | Changing times, services and attempts keeps the invariant |
| `AddrMan.FindIsMap` | src/addrman.cpp:77-88 | Whatever the address map knows has an entry with that address |
| `AddrMan.StrippedAll` | src/addrman.cpp:153-163 | After the first loop of `MakeTried` no reference is left, and nothing but the references changed |
| `AddrMan.EvictedKeeps` | src/addrman.cpp:169-192 | Eviction empties the "tried" slot, puts the evicted entry into the "new" table with one reference, and keeps the entry being moved |
| `AddrMan.MadeTriedKeeps` | src/addrman.cpp:151-197 | `MakeTried` keeps the invariant, and the entry is at its canonical place in the "tried" table |
| `AddrMan.MadeTriedEffect` | src/addrman.cpp:151-197 | Moving an entry touches no entry but itself, the one in its place, and the one whose place that one takes |
| `AddrMan.MadeTriedEvicts` | src/addrman.cpp:151-197 | The entry that was in the place of the one moved keeps all that is known of it, with one reference in the slot of its own source; every other slot of the "new" table is as it was, except those of the entry moved, which are empty |
| `AddrMan.InSomeBucket` | src/addrman.cpp:225-240 | An entry outside the "tried" table is in some "new" bucket |
| `AddrMan.GoodKeeps` | src/addrman.cpp:199-246 | `Good_` keeps the invariant; the entry of exactly that service is then in the "tried" table; an unknown service changes nothing |
| `AddrMan.GoodEffect` | src/addrman.cpp:199-246 | A success sets the time of success and of the last try and resets the attempts of exactly that service's entry, and moves it to the "tried" table if it was not there |
| `AddrMan.AttemptKeeps` | src/addrman.cpp:316-333 | `Attempt_` keeps the invariant |
| `AddrMan.AttemptEffect` | src/addrman.cpp:316-333 | An attempt counts one more and sets the time of the last try, for exactly that service's entry |
| `AddrMan.ConnectedKeeps` | src/addrman.cpp:480-498 | `Connected_` keeps the invariant |
| `AddrMan.ConnectedEffect` | src/addrman.cpp:480-498 | A connection refreshes the time of exactly that service's entry if it is older than 20 minutes |
| `AddrMan.EnteredKeeps` | src/addrman.cpp:292-312 | The last part of `Add_` keeps the invariant, whichever of its branches is taken |
| `AddrMan.EnteredEffect` | src/addrman.cpp:292-312 | Entering touches no other entry but the one in the slot and no other slot; the entry is known afterwards exactly if it has a reference, and an occupant that stays did not have to give way |
| `AddrMan.AddKeeps` | src/addrman.cpp:248-314 | `Add_` keeps the invariant for every random draw, and reports exactly whether a routable address was unknown |
| `AddrMan.NewcomerEffect` | src/addrman.cpp:284-312 | An unknown routable address gets the next id and its slot by source exactly if that is empty or its occupant is terrible or has other references; then its entry has the announced service, source, services, the time less the penalty but not below zero, and one reference. Otherwise it stays unknown and the "new" table is as it was; nobody but the occupant changes |
| `AddrMan.KnownEffect` | src/addrman.cpp:254-312 | A known address gains one reference exactly if the announcement is newer, the entry is not tried, has less than eight references, wins the draw, and the slot by source is free or its occupant terrible |
| `AddrMan.RefreshedTime` | src/addrman.cpp:256-262 | The time of a known entry moves to the announced one less the penalty exactly if it lags by more than an hour for an address online within a day, else a day, each plus the penalty |
| `AddrMan.TerribleWhen` | src/addrman.cpp:35-53 | An entry is terrible exactly if it was not tried in the last minute and is from more than ten minutes in the future, or not seen for 30 days, or failed three times without success, or ten times with none in a week |
| `AddrMan.AddRemembers` | src/addrman.cpp:254-290 | An announcement of a known address keeps its entry, never makes it look older, and adds the announced services to those known |
| `AddrMan.RunKeeps` | src/addrman.cpp:382-456 | Every run of `Add_`, `Good_`, `Attempt_`, `Connected_` and the swaps of `GetAddr_` from an empty manager keeps the invariant, which `AddrManCheck.CheckIsInvariant` compares with what `Check_` tests |
| `AddrMan.ClearedWhenEmpty` | src/addrman.h:436-454 | `Clear` leaves a well-formed manager if and only if there were no entries, because it does not empty the maps |
| `AddrManCheck.Check_` | src/addrman.cpp:382-456 | Zero exactly if all that is tested is right and the key is not null, and otherwise the code of a fault that there is; addresses without an entry are entered with the id 0 |
| `AddrManCheck.CheckInfos` | src/addrman.cpp:390-416 | The first loop passes exactly if every entry is right, and then has collected the ids of both tables with their references; otherwise its code is that of the entry it stopped at |
| `AddrManCheck.CheckTables` | src/addrman.cpp:423-451 | The loops over both tables pass exactly if both tables are right, every "tried" entry is in its place, and every "new" entry is in as many buckets as it has references |
| `AddrManCheck.TriedRound` | src/addrman.cpp:425-433 | An occupied slot of the "tried" table is right exactly if its entry was not met before and belongs there |
| `AddrManCheck.NewRound` | src/addrman.cpp:439-446 | An occupied slot of the "new" table passes exactly if its entry has a reference left and belongs there |
| `AddrManCheck.CheckedRandom` | src/addrman.cpp:386-410 | As many entries as places, each at its own, make the permutation right |
| `AddrManCheck.CheckIsInvariant` | src/addrman.cpp:382-456 | The invariant is what `Check_` tests together with what it does not look at: that ids are below the counter, that the entries' addresses are known, and that known addresses have entries |
| `AddrManager.CAddrMan.constructor` | src/addrman.h:436-459 | A new manager is empty and well formed |
| `AddrManager.CAddrMan.Clear` | src/addrman.h:436-454 | The loops empty both tables, the permutation and the counters, but neither map |
| `AddrManager.CAddrMan.SwapRandom` | src/addrman.cpp:102-120 | The in-place form of `AddrTables.SwapRandom` |
| `AddrManager.CAddrMan.Delete` | src/addrman.cpp:122-134 | The in-place form of `AddrTables.Deleted` |
| `AddrManager.CAddrMan.ClearNew` | src/addrman.cpp:136-149 | The in-place form of `AddrTables.ClearedNew` |
| `AddrManager.CAddrMan.RemoveFromNew` | src/addrman.cpp:153-160 | The loop over all "new" buckets computes `AddrMan.Stripped` |
| `AddrManager.CAddrMan.Evict` | src/addrman.cpp:169-192 | The in-place form of `AddrMan.Evicted`; the assertion that the slot is empty holds |
| `AddrManager.CAddrMan.MakeTried` | src/addrman.cpp:151-197 | The in-place form of `AddrMan.MadeTried`; all its assertions hold |
| `AddrManager.CAddrMan.Find` | src/addrman.cpp:77-88 | The id of a network address |
| `AddrManager.CAddrMan.FindBucket` | src/addrman.cpp:225-240 | The search from a random bucket always finds a bucket that holds the entry, so the exit without a bucket is unreachable |
| `AddrManager.CAddrMan.Good_` | src/addrman.cpp:199-246 | Keeps the invariant and does what `AddrMan.Good` says |
| `AddrManager.CAddrMan.Attempt_` | src/addrman.cpp:316-333 | Keeps the invariant and does what `AddrMan.Attempt` says |
| `AddrManager.CAddrMan.Connected_` | src/addrman.cpp:480-498 | Keeps the invariant and does what `AddrMan.Connected` says |
| `AddrManager.CAddrMan.Create` | src/addrman.cpp:90-100 | A new entry with the next id, at the end of the permutation |
| `AddrManager.CAddrMan.Draw` | src/addrman.cpp:279-284 | The random test succeeds for one of 2^n equally possible values, where n is the number of references |
| `AddrManager.CAddrMan.Enter` | src/addrman.cpp:292-312 | The in-place form of `AddrMan.Entered` |
| `AddrManager.CAddrMan.Add_` | src/addrman.cpp:248-314 | Keeps the invariant and does what `AddrMan.Add` says, for the outcome of its random test |
| `AddrManager.CAddrMan.GetAddr_` | src/addrman.cpp:459-478 | At most 2500 addresses and 23 percent of the entries, with time and services, of distinct known entries of good quality; all of these if fewer were wanted; only the permutation changes |
| `AddrManager.CAddrMan.PickOne` | src/addrman.cpp:467-476 | One round brings a random one of the remaining entries to its place and takes it exactly if it is of good quality |
| `AddrManager.ReachesAll` | src/addrman.cpp:226-235 | Going around from any start reaches every bucket |
| `AddrManDisk.ParseFormat` | src/addrman.h:284-352 | Parsing a written image gives the image back |
| `AddrManDisk.HeaderLayout` | src/addrman.h:340-352 | The six numbers of a header as they are read: version, key size, which must be 32, key, both counts, and the number of buckets with bit 30 turned around unless the version is 0 |
| `AddrManDisk.KeyIsRead` | src/addrman.h:340-345 | The key of the hashes is that of the file as soon as it has been read, and the object's own before |
| `AddrManDisk.FlippedBit` | src/addrman.h:295-352 | Turning bit 30 around, for every 32-bit number |
| `AddrManDisk.FileLayout` | src/addrman.h:288-330 | A written file number by number: the six numbers of the header with bit 30 set in the number of buckets, one entry for each id, then the buckets |
| `AddrManDisk.EntryLayout` | src/addrman.h:299-316 | The entries of a written file: those of the "new" table, then those of the "tried" table, each in the order of their ids, with all their stored fields |
| `AddrManDisk.FileReadIsLoad` | src/addrman.h:334-429 | Reading succeeds exactly for a stream with a whole image, and then loads it |
| `AddrManDisk.FileIdsFacts` | src/addrman.h:297-316 | The two lists written hold every entry once, those of the "new" table first, and fit the counters |
| `AddrManDisk.LoadedEntries` | src/addrman.h:354-393 | After the entries have been read, entry k is that of the k-th id of the file, and none of the "tried" table is lost |
| `AddrManReload.PlaceStep` | src/addrman.h:400-409 | Each stored index restores exactly its place, and the limit on references does not interfere |
| `AddrManReload.BucketLayout` | src/addrman.h:317-330 | A written bucket number by number: how many places are taken, then for each of them in order the place in the file of the entry there |
| `AddrManReload.BucketsPlaced` | src/addrman.h:396-411 | All places of the "new" table are restored |
| `AddrManReload.NothingPruned` | src/addrman.h:413-423 | Nothing is pruned after reading what was written |
| `AddrManReload.Reloaded` | src/addrman.h:284-429 | Reading what was written gives the same entries in the same places of both tables, up to the numbering of the entries and the time of the last attempt |
| `AddrManReload.ReloadedKeeps` | src/addrman.h:428 | The consistency check at the end of reading succeeds |
| `AddrManLoad.LoadKeeps` | src/addrman.h:334-429 | Reading an image gives a well-formed manager of entries of the image, for every version, bucket count, bucket size and hash, if the entries that are kept have different addresses and sound times |
| `AddrManLoad.ParametersMayChange` | src/addrman.h:277-278 | The promise that parameters may change without breaking the file: whatever a well-formed manager wrote reads as a well-formed manager of entries that it had, under any other parameters |
| `AddrManLoad.OnlyCollisionsLose` | src/addrman.h:354-423 | An entry of the "tried" table is lost only if its place is taken, and one of the "new" table only if every place that the stored buckets, or its source, give it is taken |
| `AddrManLoad.NewEntryKeeps` | src/addrman.h:354-371 | One entry of the "new" table, with or without a place of its own |
| `AddrManLoad.TriedEntryKeeps` | src/addrman.h:374-393 | One entry of the "tried" table, which may be lost |
| `AddrManLoad.EntriesKeep` | src/addrman.h:354-393 | After the entries the counters are exact, and only references of "new" entries may be missing |
| `AddrManLoad.BucketsKeep` | src/addrman.h:395-411 | Any stored numbers whatever keep this, and each of them that is usable has its place taken or its entry placed elsewhere |
| `AddrManLoad.PrunedKeeps` | src/addrman.h:413-423 | Pruning removes exactly the entries without references, and nothing else is missing afterwards |
| `AddrManLoad.LeftoverBreaks` | src/addrman.h:334-340 | Reading over a manager with an entry whose id the file does not reach leaves a broken manager |
| `AddrManHalfRead.HalfRead` | src/addrman.h:334-429 | A stream that breaks off, wherever that is, leaves a well-formed manager if and only if the stream meets `StillSound`: in the header, no counter other than zero was read; after it, all entries are there, those kept have different addresses and sound times, and each of the "new" table gets a place |
| `AddrManHalfRead.NewsBreakOff` | src/addrman.h:354-357 | Breaking off among the "new" entries always leaves a broken manager |
| `AddrManHalfRead.TriedsBreakOff` | src/addrman.h:374-378 | Breaking off among the "tried" entries always leaves a broken manager |
| `AddrManHalfRead.BucketsLeave` | src/addrman.h:395-411 | With all entries read, any numbers of the buckets leave a well-formed manager if and only if the entries are good and each "new" one gets a place: from the numbers if the buckets can be used, for its source otherwise |
| `AddrManHalfRead.BucketsPlayed` | src/addrman.h:395-411 | The loop over the buckets gives each entry exactly the references that its numbers win |
| `AddrManHalfRead.EachPlacedBySource` | src/addrman.h:360-368 | If the buckets cannot be used, all "new" entries get a place exactly if the slots for their sources are pairwise different |
| `AddrManHalfRead.AllWinWhen` | src/addrman.h:404-407 | All entries get a place if each has a number that no earlier number of its bucket contests; if no number occurs more than eight times, only then |
| `AddrManHalfRead.RemainGood` | src/addrman.h:354-393 | A well-formed manager after reading means that the entries kept have different addresses and sound times |
| `AddrManHalfRead.CutFile` | src/addrman.h:284-429 | The file of a well-formed manager, cut off in its buckets, leaves a well-formed manager if and only if every number of a "new" entry occurs before the cut |
| `AddrManHalfRead.NumberMissing` | src/addrman.h:395-402 | A concrete stream that ends after its one entry leaves a broken manager |
| `AddrManHalfRead.NumberThere` | src/addrman.h:395-402 | A concrete stream that ends after the number of its one entry leaves a well-formed manager |
| `AddrManFile.CounterNotReached` | src/addrman.h:302-314 | Both assertions about the counters hold |
| `AddrManFile.Serialize` | src/addrman.h:284-331 | The loops write exactly the image of the manager |
| `AddrManFile.ReadNews` | src/addrman.h:354-371 | The loop over the "new" entries for any stream; the entry in which the stream breaks off is in the map already |
| `AddrManFile.ReadTrieds` | src/addrman.h:374-393 | The loop over the "tried" entries for any stream; losses are deducted only if it is complete |
| `AddrManFile.ReadBuckets` | src/addrman.h:395-411 | The loops over the stored buckets for any stream; the numbers of a bucket that breaks off count |
| `AddrManFile.DeletedPositions` | src/addrman.h:413-423 | The deletions keep the permutation in step whatever the file said, so their assertions hold |
| `AddrManFile.Prune` | src/addrman.h:413-423 | Entries without a place are deleted, in the order of their ids |
| `AddrManFile.Unserialize` | src/addrman.h:334-429 | For any stream, the object is left in the state that `AddrManDisk.FileRead` says, whether or not reading succeeds |
| `AddrManFile.Restart` | src/addrman.h:284-429 | Writing a manager and reading it into a new object gives a well-formed manager that is the same up to numbering |
| `CoinsCache.HaveCoinsIsExact` | src/coins.cpp:144-152 | Testing only whether there are outputs is right: the record is had exactly if it is shown |
| `CoinsCache.FetchedKeeps` | src/coins.cpp:87-103 | Reading changes nothing that any view of the stack shows, and keeps the flags right |
| `CoinsCache.FetchedCopies` | src/coins.cpp:87-103 | Reading only copies the record into the caches above it, not dirty, and fresh exactly if the view below does not show it; every other entry is as it was |
| `CoinsCache.LookupIsUppermost` | src/coins.cpp:105-113 | `GetCoins` returns the uppermost record of the stack, whether or not it has unspent outputs |
| `CoinsCache.OpenedKeeps` | src/coins.cpp:115-132 | Opening a modifier changes nothing that is shown and hands out the shown record |
| `CoinsCache.OpenedEntries` | src/coins.cpp:115-132 | A modifier hands out what `GetCoins` returns or an empty record; only its entry changes, becomes dirty, and if it is new is fresh exactly if the view below does not show it |
| `CoinsCache.ClosedShows` | src/coins.cpp:274-282 | Closing a modifier makes the record what it was changed to, and changes nothing else |
| `CoinsCache.ClosedIsSeen` | src/coins.cpp:274-282 | After closing, the record is shown exactly if some output of it is unspent, with the same unspent outputs; every other record and entry is as it was |
| `CoinsCache.FreshWhenAbsent` | src/coins.cpp:173-178 | The assertion on the FRESH flag holds |
| `CoinsCache.MergedOk` | src/coins.cpp:170-194 | Merging a child's entry makes the parent show what the child showed and keeps the flags right |
| `CoinsCache.FlushedShows` | src/coins.cpp:203-208 | Flushing makes the view below show what the cache showed; the emptied cache still shows it |
| `CoinsCache.FlushedEntries` | src/coins.cpp:166-208 | Entry by entry: one that is not dirty leaves the view below alone; a dirty one is stored or erased in a database, and in a cache taken over as dirty, or dropped if nothing is unspent and the view beneath never had it |
| `CoinsCache.StepRefinesFlat` | src/coins.cpp:87-208 | Every operation of the discipline, at any level of a stack of any depth, does to the shown maps exactly what a flat map does |
| `CoinsCache.ActRefinesFlat` | src/coins.cpp:80-85 | The same with stacking a cache and dropping one |
| `CoinsCache.WhatIsEnabled` | src/coins.cpp:80-132 | Which operations a run may perform: all but those on a cache that is being modified, or that holds entries above the one operated on |
| `CoinsCache.RunRefinesFlat` | src/coins.cpp:87-282 | In every run of reads, modifications, flushes and stackings all flags stay right and every view shows its flat map |
| `CoinsCache.ReadersSeeTheMap` | src/coins.cpp:105-152 | Readers of a well-formed stack get the flat map |
| `CoinsViews.CoinsViewDB.BatchWrite` | src/txdb.cpp:55-74 | The database stores the dirty records and erases the pruned ones |
| `CoinsViews.CoinsViewCache.GetCoins` | src/coins.cpp:87-113 | The in-place form of `CoinsCache.Fetched` |
| `CoinsViews.CoinsViewCache.HaveCoins` | src/coins.cpp:144-152 | The in-place form, with its result |
| `CoinsViews.CoinsViewCache.ModifyCoins` | src/coins.cpp:115-132 | The in-place form of `CoinsCache.Opened` |
| `CoinsViews.CoinsViewCache.EndModify` | src/coins.cpp:274-282 | The in-place form of `CoinsCache.Closed` |
| `CoinsViews.CoinsViewCache.BatchWrite` | src/coins.cpp:166-201 | The loop over the child's entries merges each of them; its assertion holds |
| `CoinsViews.CoinsViewCache.Flush` | src/coins.cpp:203-208 | The in-place form of `CoinsCache.Flushed` |
| `Coins.Cleanup` | src/coins.h:121-127 | Spent outputs at the end are dropped, and no others |
| `Coins.CleanAndPruned` | src/coins.h:280-287 | After a clean-up, having no outputs and having no unspent output are the same |
| `Coins.SameOutputsTrimmed` | src/coins.h:148-157 | Outputs that agree at every position are the same after a clean-up |
| `Coins.CleanedOutputs` | src/coins.h:121-127 | A clean-up keeps every unspent output at its position and adds none |
| `Coins.Spend` | src/coins.cpp:37-53 | It fails exactly for an output that is not there; otherwise the output is spent, the record cleaned, and the undo data is the output, with height, flags and version if and only if it was the last unspent one |
| `Coins.SpendIsExact` | src/coins.cpp:37-53 | Spending makes exactly one output unavailable |
| `CoinsCodec.CalcMaskSize` | src/coins.cpp:18-35 | The number of mask bytes up to the last used one, and how many of them are not zero |
| `CoinsCodec.MaskSizeUnique` | src/coins.cpp:18-35 | The mask size is determined by the outputs |
| `CoinsCodec.ReadWholeMask` | src/coins.h:244-254 | The reader takes exactly the mask bytes written, because the last one is not zero |
| `CoinsCodec.MaskCovers` | src/coins.h:213-220 | The header bits and the mask describe all outputs |
| `CoinsCodec.MaskByteValue` | src/coins.h:214-219 | A mask byte is the sum of 1, 2, 4 and so on to 128 for those of its eight outputs that are unspent |
| `CoinsCodec.MaskLayout` | src/coins.h:213-220 | The mask written goes up to its last non-zero byte, and every output beyond is spent |
| `CoinsCodec.NotPruned` | src/coins.h:207 | The assertion in `Serialize` holds exactly for records with an unspent output |
| `CoinsCodec.HeaderRoundTrip` | src/coins.h:208 | The header code determines the flags and the number of non-zero mask bytes |
| `CoinsCodec.OutsRoundTrip` | src/coins.h:221-225 | Reading the outputs gives back those written, with spent ones in between |
| `CoinsCodec.CoinsRoundTrip` | src/coins.h:200-264 | Reading what was written gives the cleaned-up record with its version and height as a signed variable-length integer reads them back, for every record with an unspent output |
| `CoinsCodec.CoinsSurvive` | src/coins.h:200-264 | The cleaned-up record comes back if and only if neither version nor height is negative |
| `CoinsCodec.RecordLayout` | src/coins.h:200-228 | The bytes written, part by part, with the flags and the first two outputs as bits 1, 2, 4 and 8 of the header code |
| `CoinsCodec.FirstExample` | src/coins.h:42-54 | The first documented record byte by byte, as this code writes it |
| `CoinsCodec.SecondExample` | src/coins.h:57-73 | The second documented record byte by byte, as this code writes it, with both mask bytes |
| `CoinsCodec.WordAndBack` | src/compressor.h:118-125 | A signed 64-bit amount survives conversion to a word and back |
| `CoinsCodec.NegativeVersion` | src/main.cpp:2493-2497 | A negative version comes back as another one: -1 becomes 127 |
| `CoinsCodec.WriteMask` | src/coins.h:213-220 | The nested loops write the mask |
| `CoinsCodec.SerializeCoins` | src/coins.h:200-228 | The writer's loops compute the specified bytes |
| `CoinsCodec.ReadMaskLoop` | src/coins.h:244-254 | The reader's loop over the mask |
| `CoinsCodec.ReadOutsLoop` | src/coins.h:255-260 | The reader's loop over the outputs |
| `CoinsCodec.UnserializeCoins` | src/coins.h:230-264 | The reader computes the specified record or refuses |
| `CoinsCodec.PredictedSize` | src/coins.h:176-198 | The predicted size is never more than what is written, and exact if and only if no length class of variable-length integers ends between the two header codes |
| `CoinsCodec.PredictedSizeByCount` | src/coins.h:176-198 | For less than 131072 counted mask bytes: under-counted if and only if 128 or 16512 lies above eight times and not above sixteen times the count, each with the flag bits |
| `CoinsCodec.SizeUnderCounted` | src/coins.h:184-208 | A concrete record: 66 unspent outputs have header codes 76 and 140, and the size is one byte short |
| `CoinsCodec.MoneyIsWritable` | src/compressor.h:115-128 | Every amount up to a ninth of the largest word survives |
| `Compressor.CompressAmount` | src/compressor.cpp:139-156 | The loop computes the specified number |
| `Compressor.DecompressAmount` | src/compressor.cpp:158-182 | The loop computes the specified number |
| `Compressor.DecompressCompress` | src/compressor.cpp:139-182 | Decompression undoes compression for every amount |
| `Compressor.CompressDecompress` | src/compressor.cpp:139-182 | Compression undoes decompression for every number |
| `Compressor.CompressedDigits` | src/compressor.cpp:130-137 | The documented number: 1 + 10 * (9 * n + d - 1) + e for the last digit d, the digits n before it and e zeroes behind it |
| `Compressor.CompressedNineZeroes` | src/compressor.cpp:130-137 | The documented number for amounts with nine zeroes or more |
| `Compressor.CompressedExamples` | src/test/compress_tests.cpp:42-47 | The six pairs of the original's test |
| `Compressor.NoWrap` | src/compressor.cpp:139-156 | For amounts up to a ninth of the largest 64-bit word, every number that the computation forms fits the word, and the result is one of them |
| `Compressor.DecompressScript` | src/compressor.cpp:45-128 | Decompressing a compressed script gives the script, given sound public key decompression |
| `Compressor.TagIsRead` | src/compressor.cpp:85-128 | Byte by byte, what a stream with each of the six tags is read as: tag 0 pays to a key hash, 1 to a script hash, 2 and 3 to a compressed key, 4 and 5 to the decompressed key of that parity, or stays empty; a shorter stream is refused |
| `Compressor.TagIsWritten` | src/compressor.cpp:45-74 | Byte by byte, what each template is written as |
| `Compressor.PlainIsWritten` | src/compressor.h:71-82 | Every script outside the templates is written whole, behind its length and six |
| `Compressor.ScriptRoundTrip` | src/compressor.h:71-98 | Every script survives writing and reading |
| `Compressor.VarIntRoundTrip` | src/serialize.h:408-438 | Reading a variable-length integer gives it back and leaves the rest of the stream |
| `Compressor.VarIntBytes` | src/serialize.h:371-385 | The bytes are the documented base-128 digits, with bit 128 set on all but the last and one subtracted from all but the last |
| `Compressor.VarIntExamples` | src/serialize.h:387-392 | The documented encodings of 16511 and 65535 are those of 32895 and 65407 |
| `Compressor.SignedVarIntRoundTrip` | src/serialize.h:408-438 | A signed number is read back as itself if and only if it is not negative; a negative one is written as the one byte of its lowest seven bits |
| `Compressor.VarIntLengthMonotone` | src/serialize.h:408-423 | Larger numbers take no fewer bytes |
| `Compressor.VarIntLength` | src/serialize.h:408-423 | A number takes more than a given number of bytes exactly from that length's threshold on |
| `CheckQueue.InitInv` | src/checkqueue.h:130 | A new queue satisfies the invariant |
| `CheckQueue.StepInv` | src/checkqueue.h:68-157 | Every step of every thread keeps the invariant: nTodo is the queue length plus the batches in flight, nTotal and nIdle count the threads, failures are recorded |
| `CheckQueue.RunInv` | src/checkqueue.h:68-157 | The invariant holds in every state of every run |
| `CheckQueue.ResultIsExact` | src/checkqueue.h:91-98 | When nothing is left to do, the recorded result is the conjunction of all checks |
| `CheckQueue.WaitIsExact` | src/checkqueue.h:139-142 | In every run `Wait` returns true exactly if every check added since its last return is ok; then nothing is queued or in flight, all threads in the loop are idle and the flag is reset |
| `CheckQueue.IdleWhenFresh` | src/checkqueue.h:182-189 | The assertion of the controller's constructor holds |
| `CheckQueue.IdleIsExact` | src/checkqueue.h:163-167 | `IsIdle` is true exactly if nothing is queued, no thread has a batch and no failure is recorded |
| `CheckQueue.EveryThreadCanStep` | src/checkqueue.h:68-157 | Every thread can take a step in every reachable state, and the master can add any checks while it is not in `Wait` |
| `CheckQueue.BatchSplitsQueue` | src/checkqueue.h:109-116 | A batch and what it leaves are together the queue, and the batch is its end, last one first |
| `CheckQueue.BatchIsShare` | src/checkqueue.h:104-109 | A batch is never empty, never more than the batch size unless that is zero, and otherwise the queue length divided by the number of threads and of idle ones plus one |
| `CheckQueue.NoDeadlock` | src/checkqueue.h:75-125 | While the master is in `Wait`, some thread can take a productive step |
| `CheckQueue.ProductiveLeavesLess` | src/checkqueue.h:75-125 | Every productive step leaves less work |
| `CheckQueue.SpuriousWakeUp` | src/checkqueue.h:100-102 | A wake-up without a notification never makes more work |
| `CheckQueue.NoLostWakeUp` | src/checkqueue.h:79-103 | In every run, a master asleep without a notification has work in flight, and some thread can make progress |
| `CheckQueue.NoWorkerForgotten` | src/checkqueue.h:144-157 | In every run, a worker sleeps without a notification only while at least as many notified ones as there are queued checks have yet to wake up |
| `CheckQueue.AddEffect` | src/checkqueue.h:144-157 | Adding puts the checks last and notifies all sleeping workers, one or none for several checks, one or none |
| `CheckQueue.WaitIsBounded` | src/checkqueue.h:75-125 | In every run, the productive steps while the master is in `Wait` are at most four for each check that was left to do and three for each thread |
| `CheckQueue.StepPotential` | src/checkqueue.h:75-125 | While the master is in `Wait` no step adds to the work and what starting workers may add, and productive ones take from it |
| `Base58.EncodeBase58` | src/base58.cpp:85-118 | The in-place conversion computes the specified string, and the carry is zero after every byte |
| `Base58.DecodeBase58` | src/base58.cpp:24-68 | The in-place conversion computes the specified bytes or refuses, and the carry is zero after every digit |
| `Base58.MultiplyAdd` | src/base58.cpp:99-103 | The inner loop multiplies the number in the buffer and adds, the carry being what does not fit |
| `Base58.AppendDigit` | src/base58.cpp:96-106 | The assertion on the carry holds |
| `Base58.DigitLoop` | src/base58.cpp:37-52 | The digit loop stops at a space or the end, or fails exactly at a bad character |
| `Base58.SkipZeroes` | src/base58.cpp:107-110 | Leading zeros of a buffer are skipped |
| `Base58.Translate` | src/base58.cpp:111-117 | The digits become letters after the leading ones |
| `Base58.NoCarry` | src/base58.cpp:104 | A number that fits the buffer leaves no carry |
| `Base58.EncodeBufferSuffices` | src/base58.cpp:94 | The estimate of the encoding buffer is large enough for every length |
| `Base58.DecodeBufferSuffices` | src/base58.cpp:36 | The estimate of the decoding buffer is large enough for every length |
| `Base58.DigitsUnique` | src/base58.cpp:107-110 | Digits without leading zeros are determined by their value |
| `Base58.DecodeEncode` | src/base58.cpp:24-118 | Decoding an encoded byte string gives it back, leading zeros included |
| `Base58.EncodeDecode` | src/base58.cpp:24-118 | Re-encoding what a string decodes to gives the string without surrounding spaces |
| `Base58.DecodableStrings` | src/base58.cpp:24-56 | A string decodes if and only if it is a word of the alphabet between blanks, of the six white-space characters |
| `Base58.BlanksAround` | src/base58.cpp:26-56 | Blanks around a word change nothing |
| `Base58.AlphabetIsAlphanumeric` | src/base58.cpp:21-22 | The alphabet ascends and has exactly the digits and letters other than 0, O, I and l |
| `Base58.Examples` | src/test/data/base58_encode_decode.json:2-10 | Three pairs of the original's test data |
| `Base58.ValidStringsRoundTrip` | src/base58.cpp:24-118 | Every space-free string over the alphabet decodes, and re-encoding gives it back |
| `Base58.EncodeBase58Check` | src/base58.cpp:130-137 | The bytes and their checksum are encoded |
| `Base58.DecodeBase58Check` | src/base58.cpp:139-154 | Strings that are too short or have a wrong checksum are refused |
| `Base58.DecodeEncodeCheck` | src/base58.cpp:130-154 | Decoding with checksum undoes encoding with checksum |
| `Base58.CheckIsExact` | src/base58.cpp:139-154 | A string is accepted as some bytes exactly if it decodes to them followed by the first four bytes of their hash |
| `Base58.AcceptedStrings` | src/base58.cpp:139-154 | Only strings that encode some bytes and their checksum are accepted |
| `StakeModifier.SectionsGrow` | src/kernel.cpp:41-46 | Sections grow, and the last is three times as long as the first |
| `StakeModifier.SectionsFill` | src/kernel.cpp:41-46 | All 64 sections together are exactly the old modifier interval of 2087 seconds |
| `StakeModifier.SelectBlockFromCandidates` | src/kernel.cpp:52-110 | The selected block has the least selection hash among the unselected candidates up to the stop, the earliest on ties; if there are none, it is the earliest unselected; it fails only if all are selected or one is not indexed |
| `StakeModifier.ChosenBeats` | src/kernel.cpp:72-104 | The chosen block against any other eligible one by the hashes themselves: a proof-of-work block wins against a proof-of-stake one only with a hash 2^32 times smaller, and an earlier candidate must be beaten strictly; before the upgrade height proof-of-stake blocks hash the number zero |
| `StakeModifier.ChosenIsFirst` | src/kernel.cpp:64-106 | If every unselected candidate is later than the stop, the first of them is chosen |
| `StakeModifier.SomeLeft` | src/kernel.cpp:199-201 | As long as fewer blocks are selected than there are candidates, one is left |
| `StakeModifier.SelectOne` | src/kernel.cpp:196-207 | One round succeeds, its pick is new, and the stop, the bits and the selected hashes are right for one more round |
| `StakeModifier.SelectBlocks` | src/kernel.cpp:191-211 | All of min(64, n) rounds succeed, each with the right pick for its stop |
| `StakeModifier.PicksDiffer` | src/kernel.cpp:199-207 | No block is selected twice |
| `StakeModifier.ModifierBits` | src/kernel.cpp:203-204 | Bit r of the new modifier is the entropy bit of the block of round r, which is the parity of its hash, and all bits past the last round are zero |
| `StakeModifier.BitOfValue` | src/kernel.cpp:203-204 | The bits of a word are those it was made from |
| `StakeModifier.RecentCandidates` | src/kernel.cpp:176-188 | The walk back lists the blocks back to the first that is older than the start |
| `StakeModifier.RecentIsEnd` | src/kernel.cpp:180-185 | The candidates are exactly the blocks from which on none is older than the start, in the order of their heights |
| `StakeModifier.Sort` | src/kernel.cpp:189 | Sorted strictly by time and then by hash, with the same elements |
| `StakeModifier.SortedCandidates` | src/kernel.cpp:176-189 | The candidates are the recent blocks, sorted and with distinct hashes |
| `StakeModifier.GetLastStakeModifier` | src/kernel.cpp:27-38 | The modifier and time of the nearest block that generated one |
| `StakeModifier.LastGeneratedIsNearest` | src/kernel.cpp:27-38 | No block between the one given and the one found generated a modifier |
| `StakeModifier.ComputeNextStakeModifier` | src/kernel.cpp:149-238 | All paths: fixed modifiers at the start, failure exactly without any earlier modifier, the same modifier within an interval, otherwise the renewed one |
| `StakeModifier.IntervalIsCovered` | src/kernel.cpp:179-197 | The block before is always a candidate, and the last stop is the start of the present interval |
| `MasternodeVotes.CMasternodeBlockPayees.AddPayee` | src/masternode-payments.h:106-119 | Exactly the votes of that payee grow; payees stay distinct and in order, a new one comes last |
| `MasternodeVotes.CMasternodeBlockPayees.GetPayee` | src/masternode-payments.h:121-134 | The first payee with the most votes, found exactly if some number of votes is not negative |
| `MasternodeVotes.CMasternodeBlockPayees.HasPayeeWithVotes` | src/masternode-payments.h:136-145 | Whether the payee has that many votes |
| `MasternodeVotes.CMasternodeBlockPayees.IsTransactionValid` | src/masternode-payments.cpp:502-562 | Refused exactly if some payee has six votes and no such payee is paid enough |
| `MasternodeVotes.MostVotes` | src/masternode-payments.h:121-134 | The entry with the most votes is that of the payee with the most stored votes |
| `MasternodeVotes.SignedBy` | src/masternode-payments.cpp:526-545 | The payees with enough votes are those of the entries with enough votes |
| `MasternodeVotes.Increased` | src/masternode-payments.h:110-115 | Increasing one entry increases exactly one payee |
| `MasternodeVotes.Appended` | src/masternode-payments.h:117-118 | A new entry adds exactly one payee |
| `MasternodeVotes.AddedKeeps` | src/masternode-payments.cpp:475-500 | Storing a vote and tallying it keeps every tally equal to the number of stored votes |
| `MasternodeVotes.CleanedKeeps` | src/masternode-payments.cpp:607-634 | Cleaning keeps this, because it treats all votes of a height alike |
| `MasternodeVotes.TallyIsVotes` | src/masternode-payments.cpp:491-497 | A height has a tally exactly if a vote for it is stored |
| `MasternodeVotes.CMasternodePayments.AddWinningMasternode` | src/masternode-payments.cpp:475-500 | A vote is stored exactly if the earlier block is known and the vote is new; the tallies stay exact, payees stay in the order of their first votes, and other heights are as they were |
| `MasternodeVotes.CMasternodePayments.CleanPaymentList` | src/masternode-payments.cpp:607-634 | Exactly the votes and tallies of heights more than the limit below the tip are dropped; the limit is 1000, or five quarters of the masternodes if that is more |
| `MasternodeVotes.CMasternodePayments.GetBlockPayee` | src/masternode-payments.cpp:435-442 | A payee is found exactly if a vote for the height is stored; no other has more stored votes, and of several with as many it was voted for first |
| `MasternodeVotes.CMasternodePayments.IsTransactionValid` | src/masternode-payments.cpp:596-605 | Refused exactly if some payee has six stored votes for the height and no output pays any such payee the required amount |
| `BlockPayee.CMutableTransaction.FillStake` | src/masternode-payments.cpp:281-308 | The payment is appended, each stake output pays its share, and the total is kept exactly if the stake outputs pay |
| `BlockPayee.CMutableTransaction.Deduct` | src/masternode-payments.cpp:297-307 | The shares of a split reward, the remainder being taken exactly once |
| `BlockPayee.CMutableTransaction.Distribute` | src/masternode-payments.cpp:302-304 | The loop takes the split from every stake output |
| `BlockPayee.CMutableTransaction.FillWork` | src/masternode-payments.cpp:309-314 | A proof-of-work reward is split into exactly the block value |
| `BlockPayee.CMutableTransaction.FillBlockPayee` | src/masternode-payments.cpp:257-322 | For proof of stake the total is kept if and only if the first stake output exists and is no mint, or nothing is paid |
| `BlockPayee.SharesAreEven` | src/masternode-payments.cpp:299-306 | Shares differ by less than the number of outputs |
| `BlockPayee.QuotientTruncates` | src/masternode-payments.cpp:300-301 | The split is rounded towards zero, so the remainder has the sign of the payment |
| `BlockPayee.MintStakeDoesNotPay` | src/masternode-payments.cpp:286-308 | A concrete block whose stake output of 100 is a mint: the outputs total 105 after a payment of 5 |
| `Chain.CChain.SetTip` | src/chain.cpp:14-25 | The vector is exactly the path to the new tip, although the loop stops early |
| `Chain.CChain.FindFork` | src/chain.cpp:56-65 | The highest block that is both in the chain and an ancestor of the given one |
| `Chain.CChain.GetLocator` | src/chain.cpp:27-54 | The hashes of ancestors at the heights of `LocatorHeights` |
| `Chain.LocatorEnds` | src/chain.cpp:35-53 | A locator starts with the given block, ends with the first block, and has at most eleven entries and one for each doubling of the height |
| `Chain.LocatorDescends` | src/chain.cpp:35-51 | The heights descend strictly from the start |
| `Chain.HeightsExact` | src/chain.cpp:35-51 | All entries but the last are exactly as high as the doubling steps say |
| `Chain.LocatorLength` | src/chain.cpp:35-51 | A locator has at most eleven entries and one for each doubling of the height |
| `Chain.ContainsIsAncestor` | src/chain.h:597-600 | A chain contains exactly the ancestors of its tip |
| `Chain.NextIsSuccessor` | src/chain.h:602-609 | The successor is the block of the chain whose parent the block is, and exists below the tip |
| `Chain.ForkExists` | src/chain.cpp:56-65 | With the same first block there is always a common block |
| `LockedPages.LockedPageManager.LockRange` | src/allocators.h:47-66 | After locking, the counts are exact for the live ranges and the new one |
| `LockedPages.LockedPageManager.UnlockRange` | src/allocators.h:69-89 | Unlocking a live range never meets an uncounted page and leaves the counts exact |
| `LockedPages.PagesOfRange` | src/allocators.h:52-55 | The pages from first to last byte are exactly those that overlap the range |
| `LockedPages.LockedStep` | src/allocators.h:55-65 | Counting one page keeps the counts of all others |
| `LockedPages.UnlockedStep` | src/allocators.h:77-88 | A page that overlaps a live range has a count to take away |
| `LockedPages.HeldWhileInUse` | src/allocators.h:47-89 | A page is held exactly while some live range has an address on it |
| `LockedPages.NothingLeft` | src/allocators.h:82-87 | When no range is live, no page is held |
| `LockedPages.LoopEnds` | src/allocators.h:55-65 | With addresses that wrap around, the loop over the pages of a range ends if and only if the address behind its last page can be represented |
| `LimitedMap.Limited.Insert` | src/limitedmap.h:37-48 | The index stays the inverse; an evicting insertion removes the first, the oldest of the least elements; the new element comes behind all that are not greater |
| `LimitedMap.Limited.Erase` | src/limitedmap.h:49-63 | The element is removed from both; the last assertion is unreachable |
| `LimitedMap.Limited.Update` | src/limitedmap.h:64-80 | The value changes in both, and the element moves behind all that are not greater; the last assertion is unreachable |
| `LimitedMap.Limited.MaxSize` | src/limitedmap.h:82-91 | Shrinking keeps a highest-valued part of exactly that size, the end of the index |
| `LimitedMap.Limited.Locate` | src/limitedmap.h:54-62 | A known key is always found among the elements of equal value |
| `LimitedMap.RemovedKeeps` | src/limitedmap.h:57-58 | Removing an element from both keeps the index the inverse |
| `LimitedMap.InsertedKeeps` | src/limitedmap.h:45 | Inserting an element into both keeps the index the inverse |
| `LimitedMap.SameSize` | src/limitedmap.h:22-27 | The index is as long as the map is large |
| `LimitedMap.FirstIsLeast` | src/limitedmap.h:42-43 | The first element of the index has the least value |
| `LimitedMap.InsertKeepsHighest` | src/limitedmap.h:12-45 | "Only keeps the elements with the highest value": an evicting insertion does so exactly if the new value is not below the evicted one |
| `LimitedMap.HigherElementDropped` | src/limitedmap.h:41-45 | A concrete insertion that drives out a higher value |
| `LimitedMap.InsertBound` | src/limitedmap.h:41-44 | An insertion keeps the size below the limit exactly if it was below; otherwise the container grows |
| `LimitedMap.LimitThenInsert` | src/limitedmap.h:82-91 | After setting a limit, the next new key breaks it exactly if the container was not smaller than the limit |

## Left out

- `Select_` and `GetChance` of the address manager: they end only with probability one and use floating point.
- Random draws: arbitrary in `Add_`, `Good_` and `GetAddr_`; their distribution is not modelled.
- Locks outside the check queue, and a `TRY_LOCK` that fails other than by doing nothing: each locked method is one step.
- Disk, network, RPC, start-up, user interface, logging and debug output: no modelled state.
- Cryptography and the zerocoin library: arbitrary functions, with the soundness of public key decompression as the only condition.
- Integer widths of counters, identifiers and page counts: unbounded here. The 64-bit words of amounts and addresses, the sign of versions and heights, and the conversion of the spend limit are modelled.
- The header code and the mask bytes of a coin record are written as sums of distinct powers of two, not with bit operations.
- The best block hash that the coin caches pass along, and cache statistics.
- Stacking discipline of the coin caches: the parent is neither flushed nor modified while a child holds entries; this is a condition on runs, as it is in the program.
- Undo data beyond what `Spend` records, and the application of undo data.
- Compressing a script builds byte lists as values; the resizing of byte buffers is not modelled.
- C strings are lists without a terminating zero, and `isspace` is that of the C locale.
- `fQuit` of the check queue is never set, as in the program, so its threads never leave.
- Block index entries are values in `Chain` and `StakeModifier`: two entries are the same if their fields and ancestors are. The skip list behind `GetAncestor` is replaced by its contract.
- `Tip` restricted to proof of stake, `GetMedianTimePast` and the equality of chains: one loop or one comparison each.
- The printing branches of the stake modifier. The modifier of the first block is a parameter, because the code makes it from the address of a string constant.
- The kernel hash and the target comparison of proof of stake: calls into unseen code.
- `CanVote`, `IsScheduled`, the signing and the relaying of votes, and budget payments: one-branch claims or plumbing.
- `GetMasternodePayment`, `GetBlockValue` and the number of masternodes: parameters.
- Page rounding by a bit mask is rounding down to a multiple of the page size, which for powers of two is the same.
- System calls that lock memory are taken to succeed.
- Streams of the address manager are lists of numbers and entries rather than bytes.
- The order in which the first loop of `Check_` visits the entries is arbitrary; it decides only which of several faults is reported.
- The database under the coin caches keeps records as they are; what storing does to a record is proved in `CoinsCodec`.
- AddrManFile.Unserialize: reads into a new object, as start-up does; the entry in which a stream breaks off has whatever was read of it, a parameter here.
- AddrManager.CAddrMan.Clear: does not draw the new random key of the hashes, which are those of the object throughout; the program draws one for a new object, and reading replaces it.
- AddrManLoad.LeftoverBreaks: says nothing of entries left over whose ids the file overwrites; no caller reads twice into one object.
- AddrManager.CAddrMan.GetAddr_: starts from an empty list, as its only caller does.
- AddrManager.CAddrMan.Good_: requires a positive time, as all its callers pass; a "tried" entry without a time of success would break `Check_`. `Attempt_` requires a time that is not negative.
- CoinSelection.SelectMintsFromList: requires a positive target in whole coins, to which the wallet rounds up (`src/wallet/wallet.cpp:4140-4145`), and a map of held coins that counts some of the unused mints of the list.
- CoinsCodec.UnserializeCoins: reads numbers of any size, as the functions of `Compressor` do; the words of the program wrap around on encodings longer than any that it writes.
- StakeModifier.ComputeNextStakeModifier: every block of the chain is in the index under its hash, as block loading ensures; `SelectBlockFromCandidates` alone also covers blocks that are not indexed.
- BlockPayee.CMutableTransaction.FillBlockPayee: requires the first output, which block creation always makes.
- LockedPages.LockedPageManager.LockRange: the range must not end on the last page of the address space, where the loop of the program does not end (`LoopEnds`).
- LimitedMap.Limited.Insert: excludes the first insertion under a limit of one, where the program would erase from an empty index.
- LockedPages.LockedPageManager.UnlockRange: speaks of live ranges only; what unlocking a range that is not live does to the counts is not modelled.
