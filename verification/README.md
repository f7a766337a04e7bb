# GRE panel: a verified model

The panel manages GRE tunnels on a server. This project models the four parts of it whose
behaviour is hard to see from any one function, and proves what they promise:

- **The address pool allocator**: how tunnel numbers become subnets and back in 64-bit signed
  arithmetic, how the byte-carry loops compute it, and what repeated searching hands out.
- **The panel's own address**: the stored row, the environment file with its two independent
  readers, the start sequence, and the CLI's change-and-rollback procedure, over whole histories
  and over interleavings in which a start takes its steps one at a time.
- **Signing in**: the sliding-window limiter that compacts in place and forgets what it sweeps,
  refined to counting a log; and the per-account failure counter and lock behind it.
- **The path MTU probe and the backup download links**: a search that asks an unreliable network,
  and a one-live-grant table with a sweeper.

Code that works step by step is a method or a class here (`EnvFile`, `Database`, `Disk`, `Limiter`,
`Service`, `GrantTable`, `AddOffset`, `NextFreeIn`, `ListenWith`, `StartPanel`, `SetAddress`,
`MtuProbe`), each proved against a function. What a function means is said without it: in plain
arithmetic, by the pings sent, by the text's own pieces, or case by case; the laws are lemmas about
those functions.

Every lemma switches automatic induction off, so that each induction is the one written out.

## What came out of it

Most of what the code and its comments promise holds on all inputs. Where it does not, a lemma
says exactly when it does:

- The product `number*stride` is exact, and every legal number has a subnet of its own, exactly
  when the shape has one number only or spans at most 63 bits (`ExactIffFits`, `OwnSubnetIffFits`).
  Otherwise, with s the host bits, only the first 2^(63-s) numbers have subnets of their own, or
  only the first when s is 64 or more; a number past those is refused or shares the subnet of one of
  them (`PastTheReach`). Draining an unused pool then stops there, while the error still reports the
  whole Capacity (`DrainLength`, `NextFreeIn`): a /48 pool of /64 subnets yields one of its 65536
  (`OneOf65536`).
- Every legal number comes back from its subnet exactly when the stride is at most 2^63 and the
  largest legal offset is at most 2^62 (`RoundTripIffInvertible`). IPv4 always qualifies.
- The CLI and the panel read a file that assigns neither key twice alike exactly unless the CLI
  accepts it with a blank web path or a port outside 1..65535 (`ReadersAgree`, `BlankPathDiffers`):
  the panel refuses such a port, the CLI does not. `ReadersAgreeIff` says of any file, by the raw
  first and last values, when they agree.
- Over a key assigned twice the CLI edits the first assignment and the panel reads the last
  (`PutThenLast`, `DuplicateHides`), so a change takes exactly when each key is assigned once or its
  last value says the same already (`WriteThenRead`). The written file names no other address to the
  panel exactly when it has a second assignment the panel refuses to start on, or none that says
  anything else (`NamedIff`).
- Rendering the file and loading it gives the same lines exactly when no line holds a newline or
  ends in a carriage return (`ScanRenderExact`); a lost return changes no line's meaning
  (`SplitDropCR`).
- The CLI refreshes the stored seed so that no start reads its own change as an operator's edit
  (`cmd/tnp/address.go:201-206`). Some starts still take the address back: one that read the file
  before the CLI wrote it and decides after the CLI's second `Set`, one that had decided on another
  address before the first `Set` and saves after it, and one that reads the written file where a
  second assignment hides what was written. Every interleaving keeps the change exactly when the file
  as found names no other address, the file as written names none to the panel, and every start
  caught between deciding and saving had decided on the wanted one (`EveryRunKeepsIff`,
  `DecidedTooEarly`). `AfterStaleSave` says which values the start after a stale save gets right; once
  the CLI is done, a value it does not get right no later start does (`StaleForever`).
- The CLI takes an answer at the new address for success. The row then has that address too, except
  when the written file sends the panel to another port, which does not open, and the wanted one is
  the last good port or the default and opens instead (`AppliedMeans`, `AnsweredElsewhere`).
- A rollback writes the row before the file. With starts running meanwhile it ends at the old address
  exactly when each value settles and no decision in hand does harm (`RollbackEndsIff`). A value
  settles, where the found file supplies it, when that is the old value, or is what the CLI had found
  and the written file says too; where it does not, when the written file supplies none either (a new
  root path is written blank), or the old value, or nothing that is news to anybody. Otherwise the
  rollback can end at an address that is neither the old one nor the new (`RollbackLandsElsewhere`).
- When the file could not be put back, of which the CLI only warns, the next start keeps each old value
  exactly when the written file supplies none, or what the CLI had found, or the old value itself
  (`RollbackWithoutFile`).
- A key that was absent from the file is put back blank, not removed; the panel reads the file as
  it did before all the same (`RestoredReading`).
- A change made in a panel that has not been restarted since its file changed is lost at the next
  start, value by value, exactly when the file now supplies a value that differs from both
  (`PanelSetSurvivesIff`, `PanelSetLost`).
- A file taken away for one start and then put back unchanged is news again: the start without it
  records the built-in default, and the panel's change is reverted (`RemovedFileReverts`).
- A download link expires on whole milliseconds, rounded down (`RedeemIff`). A sweep changes no answer
  except the row's number. A new link's number is one more than the links handed out since a sweep
  last ran at or past the newest link's stored expiry (`NumberRule`), so a history gives the numbers
  it would give unswept exactly when no sweep ran so, with a link handed out before it
  (`SweepKeepsNumberIff`; `SweepReusesNumbers` is a run in which one does).

## Model

| member | source | states |
|---|---|---|
| AllocForms.ShapeLaw | internal/alloc/alloc.go:115-134 | a length is accepted exactly from the pool's own to /31 or /127, and each refusal has its own reason |
| AllocForms.OctetCapacity | internal/alloc/alloc.go:77-113 | an IPv4 pool wider than a /24, cut no wider than a /24, has 2^(24-bits) numbers from 0 |
| AllocForms.OctetNumbers | internal/alloc/alloc.go:137-163 | there number n is the subnet at the pool's start plus 256 n |
| AllocForms.DenseCapacity | internal/alloc/alloc.go:77-113 | every other accepted shape has as many numbers as subnets fit the pool, or 2^24 |
| AllocForms.DenseNumbers | internal/alloc/alloc.go:137-163 | there number n is the n-th subnet from the pool's start, while the offset is below 2^63 |
| AllocForms.SeventhOfSixteen | internal/alloc/alloc.go:56-76 | number 7 of 172.17.0.0/16 in /30s is 172.17.7.0/30, with .1 and .2 as its pair |
| AllocForms.ContainsIff | internal/alloc/alloc.go:158-161 | an address is in a masked pool exactly when it lies in the pool's range |
| Alloc.CapacityIsCount | internal/alloc/alloc.go:87-113 | the int64 shifts in Capacity and MaxNumber never wrap: they are a power of two of at most 24 bits, and that less one |
| Alloc.V4NeverCappedNorWrapped | internal/alloc/alloc.go:77-104 | for IPv4 the cap of 24 never bites, offsets span at most 32 bits, and the product always fits |
| AllocLaws.ExactIffFits | internal/alloc/alloc.go:150-154 | number*stride in int64 is the true product for every legal number exactly when there is one number or the two widths add up to at most 63 |
| AllocLaws.IllegalRefused | internal/alloc/alloc.go:137-149 | any number outside 0..MaxNumber is refused, naming the maximum |
| AllocLaws.SubnetExact | internal/alloc/alloc.go:137-163 | a number within reach is the aligned subnet n strides into the pool and wholly inside it, so neither the end-of-space check nor the containment check fires; within reach is every legal number where the product fits |
| Alloc.ReachWithin | internal/alloc/alloc.go:150-154 | the reach is between one and the capacity, and the whole capacity exactly where the product fits |
| AllocLaws.PastTheReach | internal/alloc/alloc.go:150-163 | a legal number past the reach is refused or given the subnet of one within it |
| AllocLaws.SubnetsDisjoint | internal/alloc/alloc.go:137-163 | no address lies in the subnets of two numbers within reach |
| AllocLaws.OwnSubnetIffFits | internal/alloc/alloc.go:137-163 | all legal numbers get subnets, and different ones, exactly for the shapes where the product fits |
| AllocLaws.Collapse | internal/alloc/alloc.go:150-163 | once the shift passes 63 every legal number is given the pool's first subnet |
| AllocLaws.RoundTrip | internal/alloc/alloc.go:167-183 | in an invertible shape a legal number's subnet is measured back to that number |
| AllocLaws.RoundTripIffInvertible | internal/alloc/alloc.go:137-183 | every legal number survives the round trip exactly when the stride and the largest offset are within 2^63 and 2^62 |
| AllocLaws.InvertibleShapes | internal/alloc/alloc.go:283-293 | shapes whose widths add up to at most 62 are invertible |
| AllocLaws.GapOfOffset | internal/alloc/alloc.go:265-293 | measuring an in-pool offset gives it back exactly when it is at most 2^62: the high halves agree whenever the offset is that small |
| AllocForms.NumberForSubnetIs | internal/alloc/alloc.go:167-183 | a subnet has a number exactly when it lies in the pool, a whole number of steps and at most 2^62 from its start, and the step is not lost to the shift; the number is how many steps |
| AllocLaws.ImportedSubnetReproduced | internal/alloc/alloc.go:167-183 | whatever in-range number an existing subnet is given, that number yields exactly that subnet |
| AllocLaws.SlotLaw | internal/alloc/alloc.go:192-212 | the slots are the address after the subnet's first and the one after that, or both ends of a /31 or /127; only a single-address subnet has none |
| AllocBytes.AddOffset | internal/alloc/alloc.go:232-260 | the byte-carry addition gives the address whose number is larger by n, or refuses exactly when that passes the end of the family's space |
| AllocBytes.AddBytes | internal/alloc/alloc.go:247-259 | in place: the buffer's number plus what ran off the top is the old number plus n |
| AllocBytes.Distance | internal/alloc/alloc.go:265-293 | comparing the high bytes and subtracting the low ones measures the true gap, and refuses backwards, across families, or beyond the bounds |
| AllocPool.NextFreeIn | internal/alloc/alloc.go:459-492 | the answer is the lowest number, from 1 by the third octet and from 0 elsewhere, whose two slots are both unused, with its allocation; failure means that every number has no allocation or a used slot, and names the Capacity; a bad shape is reported as such |
| AllocPool.AtReached | internal/alloc/alloc.go:496-531 | every number within reach has an allocation: its own subnet, the first slot and then the second, and the scheme of its pool |
| AllocPool.SlotOwner | internal/alloc/alloc.go:192-212 | an address is a slot of at most one number within reach |
| AllocPool.ExhaustionNeedsUse | internal/alloc/alloc.go:472-491 | with fewer used addresses than numbers within reach a search must succeed |
| AllocPool.FreeWithinReach | internal/alloc/alloc.go:472-491 | a free number past the reach never is the lowest: a number within it is free too |
| AllocPool.HeadIsLowest | internal/alloc/alloc.go:459-492 | the search's answer is the head of the list of free numbers, and taking its two addresses leaves exactly the tail |
| AllocPool.DrainIsFreeList | internal/alloc/alloc.go:459-492 | searching and taking until nothing is left hands out exactly the numbers within reach that were free at the start, in order, once each |
| AllocPool.FreeListDrains | internal/alloc/alloc.go:459-492 | and any pool can be drained so |
| AllocPool.DrainLaw | internal/alloc/alloc.go:459-492 | what is handed out rises strictly and no two subnets share an address |
| AllocPool.DrainLength | internal/alloc/alloc.go:459-492 | an unused pool yields Capacity allocations, one fewer under the third-octet scheme, where the product fits; 2^(63-s) with s host bits up to 63, and one with more, where it does not |
| AllocPool.OneOf65536 | internal/alloc/alloc.go:87-104 | a /48 pool reports 65536 subnets of length 64 and yields one |
| AllocForms.OctetDrain | internal/alloc/alloc.go:468-471 | by the third octet an unused pool hands out 1, 2, 3 and so on to the last number |
| AllocForms.DenseDrain | internal/alloc/alloc.go:468-471 | everywhere else it hands out 0, 1, 2 and so on |
| EnvironmentFile.EnvFile.Get | cmd/tnp/env.go:51-59 | the value of the first line that assigns the key |
| EnvironmentFile.EnvFile.Set | cmd/tnp/env.go:62-71 | replaces that line in place, or appends one |
| EnvironmentFile.ReadEnvFile | internal/config/envfile.go:57-90 | the panel's own copy of the line grammar agrees with the CLI's line by line, keeping the last value of each key |
| Text.ScanIs | cmd/tnp/env.go:37-46 | the lines of any text make it up again with newlines between them, a final one or none, each less one trailing return |
| Text.ScanUnterminated | cmd/tnp/env.go:37-46 | a final newline adds no line and its absence loses none |
| EnvironmentFile.LastLineRead | internal/config/envfile.go:65-88 | an assignment on the last line is read by both kinds of reader, whether or not a newline ends the file |
| EnvironmentFile.SplitAssigned | cmd/tnp/env.go:120-145 | an assignment with blanks before it and around the equals sign is read as its key and its value trimmed and unquoted; only the first equals sign counts |
| EnvironmentFile.SplitQuoted | cmd/tnp/env.go:137-143 | a value in either kind of quotes loses them and keeps everything inside |
| EnvironmentFile.SplitComment | cmd/tnp/env.go:123-128 | comments and blank lines assign nothing |
| EnvironmentFile.SplitNameless | cmd/tnp/env.go:129-136 | nor do lines without a name before the equals sign |
| EnvironmentFile.SplitUnassigned | cmd/tnp/env.go:129-132 | nor do lines without an equals sign |
| EnvironmentFile.SplitWritten | cmd/tnp/env.go:120-145 | a written assignment is read as its key and its value trimmed and unquoted |
| EnvironmentFile.RenderedMeaning | cmd/tnp/env.go:37-46 | every line of a rendered file is read back with the meaning it had |
| Text.ScanRenderExact | cmd/tnp/env.go:26-46 | rendering and loading gives the very same lines exactly when none holds a newline or ends in a carriage return |
| EnvironmentFile.SetIsPut | cmd/tnp/env.go:62-71 | editing the text is assigning the key: in place if it was there, at the end if not |
| EnvironmentFile.SetKeepsOthers | cmd/tnp/env.go:62-71 | the lines that assign none of a set of keys keep their text and order under a Set of one of them |
| EnvironmentFile.RenderedOthers | cmd/tnp/env.go:74-79 | through the written bytes they lose at most a trailing return |
| EnvironmentFile.SplitDropCR | internal/config/envfile.go:65-88 | a trailing carriage return does not change what a line assigns |
| Assignments.OneReading | cmd/tnp/env.go:51-59 | with one assignment of a key, first match and last match are the same value |
| Assignments.PutThenGet | cmd/tnp/env.go:62-71 | the first-match reader sees the new value, and every other key as before |
| Assignments.PutThenLast | internal/config/envfile.go:57-90 | the last-match reader sees it too unless the key was assigned twice, when it sees what it saw before |
| Assignments.PutThenLastOther | internal/config/envfile.go:57-90 | and every other key as before |
| WebPath.NormalizeIdempotent | internal/config/config.go:307-350 | the outputs of normalisation are exactly its fixed points: at most one plain segment of at most 128 characters |
| WebPath.NormalizeLaw | internal/config/config.go:330-350 | what is left without blanks and slashes at its ends is accepted as itself exactly when it is at most one plain segment, and each refusal has its own reason |
| WebPath.RunesAndDots | internal/config/config.go:307-345 | the characters a path may have, by number; one dot passes, two in a row do not |
| WebPath.NormalizeAround | internal/config/config.go:330-335 | a plain segment is accepted as itself from between any slashes and blanks |
| WebPath.LengthLimit | internal/config/config.go:344-348 | 128 characters pass and 129 do not |
| WebPath.AcceptedUnquoted | internal/config/config.go:330-350 | a raw value that normalises holds no quotes to lose in a rewrite |
| Decimal.AtoiOfItoa | cmd/tnp/address.go:207-216 | a written port reads back as the same number |
| Decimal.AtoiLaw | internal/config/config.go:359-369 | digits after at most one sign are that number, as far as 64 bits go |
| Decimal.AtoiRefuses | internal/config/config.go:359-369 | nothing, a sign alone or anything else among the digits is no number |
| Seeds.ReadPanelEnv | cmd/tnp/env.go:168-208 | the CLI's seed: first matches, blank port ignored, web path taken as given |
| Seeds.AcceptedSeed | cmd/tnp/env.go:168-208 | of two accepted raw values the port is the number or 8787, the path the normal form or the root, and provided is what was there to read |
| Seeds.NothingAssigned | internal/config/config.go:233-248 | a file that assigns neither key leaves both programs with 8787 and the root |
| Seeds.PanelFromCli | internal/config/config.go:233-248 | the panel's reading of any file is the CLI's rule on last values instead of first, a blank web path taken for none and the range enforced |
| Seeds.RefusalIff | internal/config/config.go:359-391 | which raw values each program refuses: the CLI a first port that is no number or a first path that does not normalise, the panel a last port that is no port or a last path that does not |
| Seeds.ReadersAgreeIff | internal/config/config.go:359-391 | on any file the two agree exactly when both refuse, or neither does and the last values say what the first do, the path not assigned blank |
| Seeds.BlankPathDiffers | cmd/tnp/env.go:195-201 | a file with a blank web path that they read differently |
| Seeds.ReadersAgree | internal/config/config.go:359-391 | with no key assigned twice they agree exactly unless the CLI accepts a blank web path or a port out of range |
| Seeds.WriteThenRead | cmd/tnp/address.go:207-216 | after the CLI writes an address it reads exactly that address from any file, and the panel does exactly when each key was assigned at most once or its last value says so already |
| Seeds.DuplicateHides | cmd/tnp/env.go:62-71 | over a port assigned twice the CLI reads back what it wrote and the panel reads the second |
| Seeds.WriteThenReadText | cmd/tnp/env.go:74-79 | the same through the file's bytes |
| Seeds.WriteKeepsTheRest | cmd/tnp/address.go:207-216 | both writes and the way back leave every other key's value to both readers, and every line that assigns neither key, in order |
| Seeds.WriteKeepsTheRestOfTheText | cmd/tnp/env.go:74-79 | the same through the file's bytes, trailing returns aside |
| Seeds.RestoredReading | cmd/tnp/address.go:186-198 | putting the raw values back, blank where there were none, gives the panel the reading of the file as found, however often the keys are assigned |
| Seeds.RestoredText | cmd/tnp/address.go:186-198 | the same through the bytes written, with everything else kept |
| PanelAddress.StoredStandsIff | internal/address/address.go:119-157 | each stored value stands exactly when no flag and no news in the file says otherwise, separately from the other |
| PanelAddress.ResolveEdges | internal/address/address.go:119-157 | a first start takes what it is given, flags win over any row, and with no port in range anywhere the port is 8787 |
| PanelAddress.Database.Save | internal/address/address.go:183-206 | upsert: the address and its seed are written and the last good port kept |
| PanelAddress.Database.Set | internal/address/address.go:224-244 | update, or insert when nothing was there: the same row an upsert leaves |
| PanelAddress.LastGoodIsAFallback | cmd/gre-panel/main.go:711-720 | the recorded port changes no decision; it is the second port tried |
| PanelAddress.AttemptsLaw | internal/address/address.go:300-329 | the attempts are the in-range candidates, all of them, each once |
| PanelAddress.ListenWith | internal/address/address.go:300-329 | ports are tried in that order up to the first that opens; the fallback is nil exactly when that was the first, and otherwise names the first and why it failed; failing means all failed |
| PanelAddress.BoundPortIs | cmd/gre-panel/main.go:711-720 | a start is served on the first that opens of the resolved port, the last good, the file's and 8787, in that order |
| PanelAddress.BoundPortLaw | internal/address/address.go:300-329 | the port a start gets is the resolved one exactly when that opens, and otherwise the last good, the file's or the default |
| PanelAddress.ConfiguredPortFirst | cmd/gre-panel/main.go:711-720 | the resolved port is always the first attempt, so there always is one |
| PanelAddress.StartPanel | cmd/gre-panel/main.go:170-202 | a start leaves the row resolved, saved and stamped with the port it got, serves the resolved web path, falls back exactly when the resolved port did not open, and never fails for want of a candidate |
| AddressHistory.StartServesLastWord | internal/address/address.go:119-157 | over any history of starts, panel and CLI changes, and edits that supply or withhold each value, each value served is what that value's own history says, independently of the other |
| AddressHistory.LastWriterWins | internal/address/address.go:18-35 | each start serves the last change, by panel or CLI, since the most recent start that saw in the file a value other than whoever last wrote the row had read there, else the file as that start found it, else the original row |
| AddressHistory.ReadAtLastStart | internal/address/address.go:183-206 | without CLI changes, whoever last wrote the row had read the file at the last start |
| AddressHistory.EditConsumedOnce | internal/address/address.go:18-35 | however often the panel starts on one file, it serves what the first of those starts serves, from the row |
| AddressHistory.CliSetSurvives | cmd/tnp/address.go:109-115 | from the first store on, wherever the store-write-store sequence has got to and however many starts have run in between, the row has the wanted address and a start serves it |
| AddressHistory.PanelSetSurvivesIff | internal/api/address.go:224-229 | after any history, a value changed in the running panel is served next exactly when the file supplies none, or is as that panel read it, or says the same |
| AddressHistory.PanelSetLost | internal/api/address.go:224-229 | a start, an edit and a panel change after which the next start serves the edit |
| AddressHistory.RemovedFileReverts | internal/address/address.go:82-92 | a file removed for one start and put back is news in each value it supplies, unless that is the default or what is stored |
| AddressProtocol.NoLostChange | cmd/tnp/address.go:109-115 | from the first Set on, through any interleaving of starts' own steps with the CLI's, the row, every decision and every start yet to come keep the wanted address, when the written file names no other, starts decided beforehand had decided on it and none is overtaken |
| AddressProtocol.EveryRunKeepsIff | cmd/tnp/address.go:201-216 | for any readings of the found and the written file and any starts in progress at the first Set, all interleavings keep the row exactly when neither file names another address and every start that had decided had decided on the wanted one |
| AddressProtocol.DecidedTooEarly | cmd/gre-panel/main.go:170-179 | a start that decided on another address before the first Set and saves after the second wins for good, though the file names the wanted one |
| AddressProtocol.AfterStaleSave | internal/address/address.go:119-157 | what the start after a stale save makes of the written file, value by value |
| AddressProtocol.StaleForever | internal/address/address.go:119-157 | a value that start does not get right stays wrong in every later run |
| AddressProtocol.RollbackEndsIff | cmd/tnp/address.go:152-162 | for any readings, with starts in progress when the rollback begins and starts beginning before its file is back, every interleaving ends with starts on the address resolved before the change exactly when each value settles and no decision in hand does harm, or the panel refuses the found file |
| AddressProtocol.RollbackAfterAnyRun | cmd/tnp/address.go:152-162 | this applies after any interleaving of the change itself |
| AddressProtocol.RollbackLandsElsewhere | cmd/tnp/address.go:152-162 | a start between the rollback's Set and its file can leave an address that is neither the old nor the new |
| AddressProtocol.RollbackRestoresIff | cmd/tnp/address.go:152-162 | when no start runs until the file is back, whatever row the failed start left, every later start decides on the old address exactly when each value the found file supplies to the panel is the old one or the one the CLI had found |
| AddressProtocol.RollbackWithoutFile | cmd/tnp/address.go:152-162 | without the file restored the next start keeps both old values exactly when the written file supplies of each none, or what the CLI had found, or the old value |
| AddressChange.ChangeIsValid | cmd/tnp/address.go:67-115 | every file the CLI can read, as found, written and put back through its bytes, is one those theorems speak of |
| AddressChange.UnduplicatedChange | cmd/tnp/address.go:67-115 | where neither key is assigned twice the written file names no other address, and both programs had found the same |
| AddressChange.NamedIff | cmd/tnp/address.go:109-115 | by the raw last values of the found file: the written file names no other address to the panel exactly when a second assignment is refused or none says anything else |
| AddressChange.SetAddress | cmd/tnp/address.go:56-184 | the outcome, each exactly in its case; the file, written, put back or untouched; the row, where the protocol's steps leave it, restarts included; and nothing changed unless the port was accepted and the operator agreed |
| AddressChange.OutcomeLaw | cmd/tnp/address.go:76-140 | which outcome comes when, each exactly in its case, from the old row, the readings and the world's answers; nothing changes unless the port was accepted and the operator agreed |
| AddressChange.ChangedFollows | cmd/tnp/address.go:109-162 | what each outcome says of the row, as functions of the readings, the row found and the world's answers |
| AddressChange.FirstSetStands | cmd/tnp/address.go:106-115 | from the procedure's own first Set on, where both programs had found the same and no start is overtaken, the row keeps the wanted address and every start would serve it |
| AddressChange.AppliedMeans | cmd/tnp/address.go:125-141 | an answer at the new address leaves it in the row exactly when the written file supplies no other port; otherwise the panel answers by fallback |
| AddressChange.AnsweredElsewhere | cmd/tnp/address.go:125-141 | such a fallback: applied at one port, with another in the row |
| AddressChange.SyncEnvFile | cmd/tnp/address.go:207-216 | the file and, once it is written, the row with the new seed; neither if it cannot be written |
| AddressChange.RollBack | cmd/tnp/address.go:152-162 | the row put back with the found seed, the file put back where it can be, and a further start on whichever file is there |
| RateLimiter.Limiter.Allow | internal/auth/ratelimit.go:26-50 | one call's answer and table, for every key, though lists are compacted in the arrays they are read from |
| RateLimiter.Limiter.Reset | internal/auth/ratelimit.go:54-58 | the key's entries are gone and nothing else is |
| RateLimiter.Limiter.SweepLocked | internal/auth/ratelimit.go:62-77 | at most once a window, the keys whose newest entry has aged out are gone and nothing else is |
| RateLimiter.Compact | internal/auth/ratelimit.go:33-44 | the in-place filter keeps exactly the recent times, in order |
| LimiterLaws.RecentIs | internal/auth/ratelimit.go:33-44 | the times kept are exactly those strictly after the cutoff, as many as there are |
| LimiterLaws.AttemptIs | internal/auth/ratelimit.go:26-50 | a check that is not switched off is allowed exactly when fewer than the limit are strictly after the cutoff, and leaves those and its own time |
| LimiterLaws.SweepIs | internal/auth/ratelimit.go:62-77 | a sweep, once a window at most, leaves exactly the keys whose newest time is strictly after the cutoff |
| LimiterLaws.LogIs | internal/auth/ratelimit.go:26-58 | the log of a key: every attempt counted since its last reset, in order |
| LimiterLaws.CountsTheLog | internal/auth/ratelimit.go:26-50 | for any interleaving of keys, the answer is whether fewer than limit attempts since the key's last reset fall within the trailing window, whatever was compacted or swept |
| LimiterLaws.TableIsLog | internal/auth/ratelimit.go:62-77 | beyond the trailing window the table and the never-shortened log hold the same times |
| LimiterLaws.WindowBound | internal/auth/ratelimit.go:33-49 | with one limit and no reset, no half-open window of any run holds more allowed calls than the limit |
| LimiterLaws.DisabledCheck | internal/auth/ratelimit.go:26-30 | a limit of zero or less allows everything and leaves no trace |
| Lockout.Service.Authenticate | internal/auth/service.go:194-251 | exactly who is told what: locked, refused for a full name or address, wrong, broken, inactive or accepted; and what that does to the row, the lock, the counter and the name's entries |
| Lockout.ReplyLaw | internal/auth/service.go:194-289 | the same of the answer as a function of the state the try finds |
| Lockout.ThrottleIff | internal/auth/service.go:212-221 | the limiter lets a try through exactly when fewer than the limit for the name and four times that for the address stand in the minute before |
| Lockout.LowerIs | internal/auth/service.go:216 | the name's key does not tell capitals from small letters |
| SignIn.RepliesOverRuns | internal/auth/service.go:194-251 | over any run from an empty limiter, the same with both keys counted from the log of limiter calls |
| SignIn.RightPasswordSignsIn | internal/auth/service.go:236-251 | the right password of an active account that is not locked, with room in both logs, signs in |
| Lockout.CounterIsModulo | internal/auth/service.go:255-289 | over any run the counter is the wrong passwords since the last success, modulo the threshold |
| Lockout.LocksAtThreshold | internal/auth/service.go:255-276 | a wrong password locks the account exactly when it completes a multiple of the threshold |
| Lockout.LockHolds | internal/auth/service.go:194-210 | until the lock passes every try on the account is answered with it and its row does not move, whatever happens to others |
| Lockout.ThrottlePasses | internal/auth/service.go:212-221 | with fewer than the threshold recent tries on the name, and three thresholds more on the address, neither limiter call refuses |
| Lockout.BarrageLocks | internal/auth/service.go:194-276 | wrong passwords in a row always reach the lock before the throttle, from any counter, however spread in time, each one verified |
| Siege.SiegeLocks | internal/auth/service.go:194-276 | among any tries on other accounts and from any addresses, wrong passwords that find room are each verified and the one that reaches the threshold locks |
| Siege.FreshNameHasRoom | internal/auth/service.go:212-221 | they find room with nothing recent on the name and at most three thresholds' worth, recent or others' since, from each address |
| Siege.RunBound | internal/auth/ratelimit.go:26-50 | over any run a key's recent entries are at most those it had and the tries that touch it |
| Mtu.ProbeSize | internal/diag/mtu.go:218-266 | told from the pings: unsent below 20 bytes of payload; a second only after silence that was not cut short; fits exactly when the last one was received with no report and no refusal to send; its report is the probe's |
| Mtu.ProbedConcludes | internal/diag/mtu.go:218-266 | the same of the probe as a function |
| Mtu.RangeLaw | internal/diag/mtu.go:104-114 | the range searched: the ends in order, with settings for those not given |
| Mtu.MtuProbe | internal/diag/mtu.go:104-172 | for any network a ping of the size found came back, and unless cancelled that is the ceiling or its successor was seen not to fit; the search takes at most log2 of the range, rounded up, and the smallest report caps the figure |
| Mtu.CeilLog2Is | internal/diag/mtu.go:152-167 | that logarithm is the least exponent whose power of two reaches the range |
| Mtu.TruePath | internal/diag/mtu.go:133-167 | on a path whose pings come back exactly up to an MTU, what was seen makes it the smaller of that MTU and the ceiling |
| Mtu.NarrowInterface | internal/diag/mtu.go:246-254 | over an interface that refuses to send more than 1400 bytes the search to 1500 finds 1400 |
| Mtu.ReportHasTheLastWord | internal/diag/mtu.go:169-172 | the final figure exceeds no MTU a router reported in any step |
| Mtu.SmallestReportLaw | internal/diag/mtu.go:157-167 | the reported figure is the least of the reports made, or 0 when there were none |
| Grants.GrantTable.IssueGrant | internal/backup/grant.go:63-91 | while a link is out the table stands and the answer shows an open row than which none lasts longer, without its secret; otherwise one row is added under a number above all others |
| Grants.GrantTable.LiveGrant | internal/backup/grant.go:95-127 | an open row than which none lasts longer, or no grant exactly when none is open |
| Grants.GrantTable.RedeemToken | internal/backup/grant.go:135-170 | a token succeeds exactly when its row is neither revoked nor expired; that row counts one more and nothing else changes |
| Grants.GrantTable.RevokeAll | internal/backup/grant.go:173-182 | every row is marked deleted and the answer is how many were not |
| Grants.GrantTable.SweepExpired | internal/backup/grant.go:187-195 | a row stays exactly when its expiry is ahead, and the answer is how many went |
| GrantLaws.StepRefines | internal/backup/grant.go:63-195 | each operation does to the table what it does to a single grant in hand, and tells its caller about that grant |
| GrantLaws.AtMostOneLive | internal/backup/grant.go:54-66 | in every run at most one row is open at any time |
| GrantLaws.RedeemIff | internal/backup/grant.go:129-170 | a token works exactly when some issue handed it out, nothing revoked it since, and its stored expiry is ahead |
| GrantLaws.DownloadCountIsRedemptions | internal/backup/grant.go:161-168 | every row's count is the number of successful redemptions of its token |
| GrantSweeps.SweepInvisible | internal/backup/grant.go:184-195 | runs that differ only in their sweeps answer Issue, Live and Redeem alike, up to the row's number |
| GrantSweeps.NumberRule | internal/backup/grant.go:76-91 | a new link is numbered one past those handed out since a sweep last ran at or past the newest stored expiry; a link shown or redeemed has the number of the last of them |
| GrantSweeps.SweepKeepsNumberIff | internal/backup/grant.go:187-195 | a history and the same unswept give one answer, number and all, exactly when they give none or no sweep ran at or past the newest stored expiry after a link was handed out |
| GrantSweeps.SweptAlikeIff | internal/backup/grant.go:187-195 | two runs that differ in their sweeps give the same number exactly when they have handed out as many links since the table was last emptied |
| GrantSweeps.SweepReusesNumbers | internal/db/schema.go:581-593 | a run in which a sweep makes the next link bear the number of the last |

## Left out

- Starts with `--bind-port` or `--web-path`: every start in the run theorems is flagless, as the units that systemd restarts are.
- The process environment: a start reads its values from the environment file through the panel's own reader, in one step; systemd's reading of the same file is not modelled.
- Other configuration keys, data directories, TLS and the rest of Load: only the port, the web path and what refuses them are modelled.
- Line-length limits of the two scanners, and text that is not valid UTF-8: strings are Unicode scalar values.
- File permissions, atomic rename and partial writes: a file is written whole or not at all.
- AddressChange.SetAddress: port probing, the operator's answer, systemctl, which ports open and whether a poll gets through in time are parameters; in the procedure itself a restart's start runs to its end before the next step, and starts that do not are the protocol's subject.
- AddressProtocol.EveryRunKeepsIff: starts in progress at the first Set have read the file as the CLI found it.
- AddressHistory.LastWriterWins: changes and edits are in range; a start on a file the panel refuses changes nothing and is not an event.
- IPv4-mapped and zoned addresses, parsing of pools, public-range warnings, pool titles, and reading the used set from the database.
- AllocLaws.SubnetExact: asks for a masked pool, as do the laws of draining; every pool is parsed into one.
- LimiterLaws.CountsTheLog: one window for all calls and a clock that never runs backwards, as sign-in uses it; saturation of time differences is not modelled.
- Lockout.Service.Authenticate: the name is already trimmed, lower-casing is ASCII, the password check is an oracle's verdict, and calls do not overlap.
- Argon2, token encoding, hashing and randomness: the verdict is given, tokens are fresh and a token stands for its hash.
- Mtu.MtuProbe: looking up the tunnel, opening the socket, the run's record and the recommendation made from the figure are left out; the ping and its cancellation are oracles that may answer differently each time.
- Grants.GrantTable.IssueGrant: asks for a secret no row has, as the table's own constraint does; columns that are only written (the user, the update and download dates), a link's remaining time, and overlapping calls.
- HTTP handlers, routing, translations, menus, the OpenAPI document, and normaliseNilLists.
