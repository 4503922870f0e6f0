# Four engines of an appliance, modelled and proved in Dafny

The repository is a firewall and proxy appliance: mostly scripts, with a few C engines that keep
real state. This project models four of them and proves what they are relied on for.

**The packet filter** (`v1.x/awiefw/configs/ip_tables.c`). A table is an array of rules.
`mark_source_chains` searches it depth-first without a stack: back pointers live in the rules'
packet counters, and a bit of `comefrom` marks the path. `ipt_do_table` interprets the table
with jumps and returns: its call stack is one `back` pointer and the `comefrom` words of the
rules behind the jumps being followed. That threading is sound only because the search has
excluded loops; the main theorem joins the two and compares the engine with a recursive
evaluator that has no stack at all (`RuleGraph`, `CameFrom`, `PathWeight`, `MarkChains`,
`Reference`, `ReturnPoints`, `RuleEngine`). Around it: the address match (`IpMatch`), the
reference counts of match and target modules (`ModuleUse`), and replacing a table and reading
its counters (`TableAdmin`).

**The route cache** (`v1.x/awiefw/configs/kernel-route.c`). A hash table of chains linked
through the entries, with move-to-front, expiry, an adaptive collector and delayed flushes
(`RouteEntries`, `RouteChains`, `RouteCache`, `RouteCollector`, `RouteLookup`, `FlushTimer`),
whole runs of it (`RouteRuns`), and the two rate limiters each route carries (`RateLimits`).
Buckets are locked, so every operation on a bucket is one step. What others decide meanwhile (the
clock, the number of allocated entries, memory, neighbours) is a parameter with a value for each
time it is asked, so what is stated holds for every such environment. The ghost field `chains` lists each bucket's
entries; the methods relink the real `next` fields.

**The streaming HTML filter** (`v3.0/src/filters/cfmod_htmlfilter.c`). A byte-level state machine
fed arbitrary chunks, a tag parser that cuts a scratch copy in place, and a tag printer
(`TagSyntax`, `TagParser`, `TagRenderings`, `TagPrinter`, `HtmlLexer`, `HtmlFilter`,
`HtmlDocuments`).

**MD5** (`v2.0/login/md5.c`). The incremental context against the one-shot definition in
sections 3.1 to 3.5 of RFC 1321 (`Md5Words`, `Md5Transform`, `Md5Spec`, `Md5Context`), and that
definition against a digest of the RFC's test suite (`Md5TestSuite`).

Code that updates in place is imperative here too: classes over arrays and linked entries, with
methods proved against functions of the old state, and lemmas about those functions.

`dafny verify dfyconfig.toml` checks the whole project.

## Where the code is not what it seems

- A quoted attribute value ends at the first quote of its kind even behind a backslash: line 346
  clears the flag that line 338 has just set (`HtmlLexer.QuoteLasts`). The tag parser, at line
  186, does honour the backslash.
- White space on both sides of `=` tears an attribute from its value: `a = b` is read as `a` with
  an empty value and an attribute `b` (`TagRenderings.PairReadIff`).
- Text passes through the filter unchanged exactly as long as no `<` is read at the start of a
  tag or inside one: `<<` is collapsed and a cut-off tag gains a `>`
  (`HtmlLexer.ConservedIffNothingRepaired`).
- The comment above `ip_rt_send_redirect` promises at most `ip_rt_redirect_number` redirects to a
  host between silences. A packet held back by the backoff is not recorded, so the limiter takes
  the time since the one before it for a silence and starts again. Between silences the bound
  holds on all traces if and only if at most one redirect is allowed, or the load or the silence
  is 0 (`RateLimits.RedirectsBoundedIff`); for every other setting, the defaults among them,
  some trace without any silence causes as many redirects as one likes (`Unbounded`,
  `DefaultsExceed`).
- A pending flush stays within the deadline exactly if the first request, made at rest, asks for
  no more than the maximum delay, which nothing enforces; a minimum delay above the maximum is
  enough to break it. Later requests may ask for anything (`FlushTimer.FirstRequest`,
  `MinimumAboveMaximum`, `EveryRequestIsServed`).
- `ipv4_negative_advice` looks for a route in the bucket of its output interface. An input route
  would be found there only by coincidence (`RouteLookup.Router.NegativeAdvice`,
  `AdviceCanMiss`). Its callers are not in this repository, and nothing here shows that one of
  them ever passes it an input route.
- `standard_check` looks at the range of a jump only after the loop check has followed it, and the
  policy rules are not checked at all (the FIXME at lines 765-766 of `ip_tables.c`). So it is a
  precondition here that control entering at a valid hook stays in the table
  (`RuleGraph.Followable`) and that a policy rule decides (`Reference.Policy`). A bad jump that
  no valid hook reaches is refused, as `standard_check` does it.

## Model

| member | source | states |
|---|---|---|
| IpMatch.IfaceDifference | v1.x/awiefw/configs/ip_tables.c:152-159 | the or-ed word loop is non-zero exactly if some masked word of the device name differs |
| IpMatch.IpPacketMatch | v1.x/awiefw/configs/ip_tables.c:122-198 | the staged early exits decide the conjunction of the six tests, each inverted by its own flag, addresses, devices, protocol and fragment |
| IpMatch.UnconditionalMatchesAll | v1.x/awiefw/configs/ip_tables.c:485-496 | an all-zero address block is matched by every packet on every pair of devices, which the loop check relies on |
| Reference.PassedOver | v1.x/awiefw/configs/ip_tables.c:312-323 | a rule whose addresses or some match do not fit is passed over, or drops the packet if a match that was asked orders it; nothing is counted |
| Reference.VerdictTaken | v1.x/awiefw/configs/ip_tables.c:331-356 | a fitting rule's standard verdict v decides as -v - 1, returns, or goes to rule v, and unless that is the next rule the evaluation goes on behind the jump when the chain returns |
| Reference.ExtensionTaken | v1.x/awiefw/configs/ip_tables.c:357-391 | a fitting rule's extension target gets the packet, may rewrite it and decides unless it says CONTINUE |
| Reference.PolicyTaken | v1.x/awiefw/configs/ip_tables.c:309-343 | a base chain's own decision stands; when it returns its policy decides and is counted |
| Reference.PacketsCount | v1.x/awiefw/configs/ip_tables.c:325 | a rule's packet count is the number of its hits |
| CameFrom.BitLaws | v1.x/awiefw/configs/ip_tables.c:527-544 | setting and flipping bits of comefrom changes that bit only |
| PathWeight.PushGains | v1.x/awiefw/configs/ip_tables.c:571-586 | going deeper makes the search path heavier, so the search makes progress though chains are walked repeatedly |
| PathWeight.MoveAlongGains | v1.x/awiefw/configs/ip_tables.c:549-569 | backtracking over a big jump and moving along one reaches the ceiling of all paths through that jump |
| PathWeight.WeightBounded | v1.x/awiefw/configs/ip_tables.c:515-587 | path weights are bounded, which gives termination on every table, cyclic or not |
| RuleGraph.SoundStep | v1.x/awiefw/configs/ip_tables.c:498-592 | where no cycle can be reached and control stays in the table, every step leads to such a rule again, with strictly fewer rules to visit |
| RuleGraph.FollowableFrom | v1.x/awiefw/configs/ip_tables.c:498-592 | whatever control can reach from a rule from which it stays in the table has its successors in the table |
| RuleGraph.EndsItsChain | v1.x/awiefw/configs/ip_tables.c:532-540 | from a rule without matches, with an all-zero address block and a negative standard verdict, nothing but itself is reached |
| RuleGraph.LeadsOn | v1.x/awiefw/configs/ip_tables.c:563-586 | every other rule leads to the rule behind it and to its jump target, and nowhere else |
| MarkChains.BackEdgeIsCycle | v1.x/awiefw/configs/ip_tables.c:522-527 | meeting a rule marked as on the path proves a cycle reachable from the hook entry |
| MarkChains.ExploredIsAcyclic | v1.x/awiefw/configs/ip_tables.c:535-570 | rules that have been backtracked over reach no cycle |
| MarkChains.PopStep | v1.x/awiefw/configs/ip_tables.c:541-562 | one turn of the backtracking loop: the cleared counter led back to the rule before on the path, and the rest of the thread is intact |
| MarkChains.Arrive | v1.x/awiefw/configs/ip_tables.c:528-530 | marking a rule keeps the thread, the hook bits and the path bits in step, and the path no longer than the table |
| MarkChains.Finish | v1.x/awiefw/configs/ip_tables.c:538-556 | when the entry has been left, the hook bit is set on exactly the reachable rules and no path bit or back pointer is left |
| MarkChains.Entries.Backtrack | v1.x/awiefw/configs/ip_tables.c:537-562 | completely searched rules are left until one was entered by a big jump, or the search of the hook is over |
| MarkChains.Entries.MarkHook | v1.x/awiefw/configs/ip_tables.c:509-589 | one hook's search succeeds exactly if no cycle can be reached; then its bit says which rules can be reached and no other hook bit changes |
| MarkChains.Entries.MarkSourceChains | v1.x/awiefw/configs/ip_tables.c:498-592 | returns true exactly if no valid hook reaches a cycle; then bit h of comefrom is set exactly on the rules reachable from hook h, path bits are clear and counters are 0; terminates on every table that control does not leave, cyclic or not |
| Reference.PolicyDecides | v1.x/awiefw/configs/ip_tables.c:309-310 | an underflow rule decides every packet with its policy |
| ReturnPoints.SlotIsFree | v1.x/awiefw/configs/ip_tables.c:344-349 | the word behind the jump being taken is never that of a live return point |
| ReturnPoints.LiveJump | v1.x/awiefw/configs/ip_tables.c:344-353 | a jump pushes exactly one return point onto the thread and disturbs none below |
| ReturnPoints.LiveReturn | v1.x/awiefw/configs/ip_tables.c:338-343 | a return pops exactly the innermost return point |
| ReturnPoints.ResumePush | v1.x/awiefw/configs/ip_tables.c:309-397 | resuming a pushed return point is the callee, then the return point, then the rest; the pending step counts add up |
| RuleEngine.IterateMatches | v1.x/awiefw/configs/ip_tables.c:230-246 | matched exactly if every match of the rule matches; a drop is ordered exactly if some match orders it and all before it matched |
| RuleEngine.StandardTarget | v1.x/awiefw/configs/ip_tables.c:331-353 | the four kinds of standard verdict: decided as the evaluator says, or the traversal goes on threaded and with fewer steps left |
| RuleEngine.ApplyRule | v1.x/awiefw/configs/ip_tables.c:312-397 | one turn of the loop keeps what is left to do equal to the evaluator's answer, counts the hit, and strictly lowers the remaining step count |
| RuleEngine.ApplyTarget | v1.x/awiefw/configs/ip_tables.c:327-391 | the same for a matching rule that has been counted, with a standard target or an extension that may rewrite the packet |
| RuleEngine.DoTable | v1.x/awiefw/configs/ip_tables.c:254-412 | from every hook entry that reaches no cycle and stays in the table, for every packet and all match and target functions: terminates with the verdict, packet and hits of the recursive evaluator, whatever comefrom held before |
| RuleEngine.TallyOne | v1.x/awiefw/configs/ip_tables.c:325 | incrementing one rule's counters is one more hit on it and none on the others, modulo the counter width |
| ModuleUse.Registry.CheckMatch | v1.x/awiefw/configs/ip_tables.c:640-673 | a match holds one reference on its module exactly if the check succeeds; it fails with EINTR if interrupted, ENOENT if the match is not registered, EINVAL if its own check refuses, and else succeeds |
| ModuleUse.Registry.CleanupMatches | v1.x/awiefw/configs/ip_tables.c:594-608 | exactly the first n references are given back; no count goes below zero |
| ModuleUse.Registry.CheckEntry | v1.x/awiefw/configs/ip_tables.c:677-731 | succeeds exactly if flags, every match and the target are acceptable and no lookup is interrupted; failing at any match or at the target gives back exactly the references already taken |
| ModuleUse.Registry.CleanupEntries | v1.x/awiefw/configs/ip_tables.c:776-794 | exactly the references of the first n rules are given back |
| ModuleUse.Registry.CheckEntries | v1.x/awiefw/configs/ip_tables.c:857-867 | all rules bound, or no reference held; success exactly if every rule is acceptable and no lookup is interrupted |
| ModuleUse.MatchRefsMonotone | v1.x/awiefw/configs/ip_tables.c:594-608 | a prefix of the matches holds no more references than a longer one, so the counts suffice for the clean-up |
| ModuleUse.TableRefsCount | v1.x/awiefw/configs/ip_tables.c:776-794 | a table's references on a module are one for each match and each target the module owns |
| TableAdmin.TranslateTable | v1.x/awiefw/configs/ip_tables.c:798-876 | succeeds exactly if the rule count is as announced, valid hooks lie in the table and reach no cycle, every rule is acceptable and no lookup is interrupted; then modules are bound and every CPU's copy counts from zero; on failure no reference is left, and ELOOP means a loop |
| TableAdmin.Table.Traverse | v1.x/awiefw/configs/ip_tables.c:254-412 | on an installed table the engine does what the evaluator says, and each rule's totals over all CPUs grow by exactly its hits and their bytes, modulo the counter width |
| TableAdmin.ColumnSumUpdate | v1.x/awiefw/configs/ip_tables.c:931-946 | changing one CPU's copy changes the totals by the difference |
| TableAdmin.TraversalTallied | v1.x/awiefw/configs/ip_tables.c:325 | a traversal's hits on one CPU are its hits in the totals |
| TableAdmin.GetCounters | v1.x/awiefw/configs/ip_tables.c:919-946 | per-rule totals over all CPUs, modulo the counter width |
| TableAdmin.DoAddCounters | v1.x/awiefw/configs/ip_tables.c:1152-1218 | EFAULT if copying fails, EINVAL unless there is one addition per rule, and else exactly the additions join the totals |
| TableAdmin.AdjustOwn | v1.x/awiefw/configs/ip_tables.c:1117-1125 | the table module's own reference exists exactly while there are more rules than initially |
| TableAdmin.AccountedMeans | v1.x/awiefw/configs/ip_tables.c:1117-1125 | the balance for one module: other holders, its matches and targets in the installed rules, and the table's own |
| TableAdmin.DoReplace | v1.x/awiefw/configs/ip_tables.c:1055-1148 | after success or failure at any point every use count equals the references from the installed table plus the table's own plus other holders'; success hands back exactly the old totals, as many as there were old rules, and starts from zero; failure changes nothing; success exactly for a translatable table with the right hooks and counter count when no copy fails and nothing interrupts |
| RouteChains.NoKeyTwice | v1.x/awiefw/configs/kernel-route.c:616-698 | if every entry is in its bucket and no bucket has a key twice, the whole table has no key twice |
| RouteChains.SweepThins | v1.x/awiefw/configs/kernel-route.c:554-564 | what a sweep leaves is the chain without some removable entries, in the old order |
| RouteChains.ThinnedKeepsOrder | v1.x/awiefw/configs/kernel-route.c:554-564 | any two survivors were in the same order before |
| RouteChains.ThinnedMembers | v1.x/awiefw/configs/kernel-route.c:347-366 | nothing new appears, and nothing but idle entries goes |
| RouteChains.StrengthBounds | v1.x/awiefw/configs/kernel-route.c:345-366 | whatever protects an entry, a sweep leaves none that is not in use and is expired or has been unused for longer than the current strength |
| RouteChains.NoPatience | v1.x/awiefw/configs/kernel-route.c:347-366 | at strength zero the collector leaves only entries in use or used since the sweep began |
| RouteChains.NoneExpired | v1.x/awiefw/configs/kernel-route.c:384-402 | the periodic sweep leaves no expired entry in a bucket, in use or not |
| RouteEntries.MayExpireMeans | v1.x/awiefw/configs/kernel-route.c:333-366 | an entry may expire exactly if it is not in use and is past its expiry, or neither patience protects it |
| RouteChains.Fate | v1.x/awiefw/configs/kernel-route.c:549-565 | an entry behind n survivors goes or stays as the patience halved n times decides, and stays in its place among the survivors |
| RouteChains.YoungStays | v1.x/awiefw/configs/kernel-route.c:345-363 | an entry in use, a young one, and a valuable one within the strength survive the collector's sweep |
| RouteCache.Cache.Unlink | v1.x/awiefw/configs/kernel-route.c:560 | the in-place unlinking takes exactly that entry out of its chain and keeps the table valid |
| RouteCache.Cache.PushFront | v1.x/awiefw/configs/kernel-route.c:681-695 | a new key goes in front of its bucket; the table stays valid |
| RouteCache.Cache.MoveToFront | v1.x/awiefw/configs/kernel-route.c:627-631 | a found entry becomes the first of its bucket; the others keep their order |
| RouteCache.Cache.Find | v1.x/awiefw/configs/kernel-route.c:623-644 | finds the entry with the key, or none has it |
| RouteCache.Cache.SweepBucket | v1.x/awiefw/configs/kernel-route.c:549-565 | the relinking loop leaves exactly the chain the sweep function gives, with halving patience, and counts what it removed |
| RouteCache.Cache.RunFlush | v1.x/awiefw/configs/kernel-route.c:417-436 | every bucket is empty |
| RouteCollector.Collector.SetGoal | v1.x/awiefw/configs/kernel-route.c:518-542 | the goal is that of GoalMeans for the counts read; the equilibrium is what the last read leaves when the goal is met |
| RouteCollector.GoalMeans | v1.x/awiefw/configs/kernel-route.c:518-534 | in the dangerous area the goal is at least one entry per bucket and half the excess; else it is positive if the count is above the old equilibrium and the threshold and does not fall meanwhile |
| RouteCollector.Collector.SweepRound | v1.x/awiefw/configs/kernel-route.c:546-570 | exactly the buckets from the rover on until the goal is met, or all of them, are swept at the current strength, one clock read each, and the others are untouched; the goal falls by what was unlinked |
| RouteCollector.Collector.Rounds | v1.x/awiefw/configs/kernel-route.c:545-602 | each round sweeps at half the strength of the one before, all but the last miss the goal and visit every bucket; the number of rounds and the outcome follow from the goal, the strength, the counts read, the clock and whether it is an interrupt; terminates even if the clock stands still |
| RouteCollector.Collector.GarbageCollect | v1.x/awiefw/configs/kernel-route.c:495-614 | never unlinks an entry in use and keeps survivors in order; comes too early, or has nothing to do, exactly for the counts and times that say so; a missed goal leaves no idle entry that is expired or unused for longer than the strength of the last round, and outside interrupts, if the clock stands still, overflows only when strength zero has left none; the strength afterwards is exact; 1 is returned exactly on overflow |
| RouteCollector.Collector.CheckExpire | v1.x/awiefw/configs/kernel-route.c:368-410 | removes only idle or expired entries, and in each bucket it visits all the expired ones; up to one turn of the table, exactly the visited buckets are swept; stops at the first tick of the clock, or else after exactly the fraction of the table that its interval calls for |
| RouteCollector.NextBucket | v1.x/awiefw/configs/kernel-route.c:551 | the rover passes every bucket once in a round |
| RouteLookup.Router.Intern | v1.x/awiefw/configs/kernel-route.c:616-698 | an entry with the key moves to the front and is held; otherwise the new one is put there, or the table is left alone if binding its neighbour fails, exactly as the first try says, or, when the neighbour table is full and it is no interrupt, the second after a collection; settings changed for the collection are restored |
| RouteLookup.Router.Shrink | v1.x/awiefw/configs/kernel-route.c:663-672 | the collector runs as if every bucket should hold one entry and however short ago it ran, and the settings are restored |
| RouteLookup.InternedEntries | v1.x/awiefw/configs/kernel-route.c:616-698 | interning leaves only old entries and the new one, and the result is in front of its bucket |
| RouteLookup.Router.RtDel | v1.x/awiefw/configs/kernel-route.c:758-772 | unlinks the entry exactly if it is in this bucket, and releases it either way |
| RouteLookup.EntryGone | v1.x/awiefw/configs/kernel-route.c:758-772 | unlinking takes one entry and its key out of the whole table |
| RouteLookup.Router.NegativeAdvice | v1.x/awiefw/configs/kernel-route.c:898-923 | a redirected or expiring route leaves the cache exactly if the bucket of its output interface is its own |
| RouteLookup.AdviceCanMiss | v1.x/awiefw/configs/kernel-route.c:909-912 | an input route for which it is not |
| RouteLookup.Router.RedirectOne | v1.x/awiefw/configs/kernel-route.c:802-885 | no output entry for these keys anywhere; or the one found does not fit, or there is no memory or neighbour, and nothing changes; or it is gone, and a copy with its key, through the new gateway and marked redirected, is first in its bucket; or the copy cannot be interned and the route is lost; which of these is determined by the entry and the chances; other entries in use stay |
| RouteLookup.Router.Redirect | v1.x/awiefw/configs/kernel-route.c:774-896 | the four lookups, both source keys with both interface keys in this order, each do what RedirectOne says, and only a lack of memory ends them early; every new entry is a copy, through the new gateway, of an old output entry through the old one; input routes stay what the slow path gives |
| RouteLookup.ReroutedToo | v1.x/awiefw/configs/kernel-route.c:802-881 | a copy made by one of the four lookups is not rerouted again by another |
| RouteLookup.Router.RouteInput | v1.x/awiefw/configs/kernel-route.c:1639-1701 | the route returned has the packet's destination, source, interface, mark and masked tos as its key and is the one the slow path gives for it; a cached key always hits and nothing moves; else it fails exactly if the slow path refuses or the neighbour of a unicast route cannot be bound, and on success the new entry is first in its bucket; entries in use stay |
| RouteRuns.SharedEntry | v1.x/awiefw/configs/kernel-route.c:1646-1658 | two packets share an entry exactly if they agree on addresses, interface, mark and masked tos |
| RouteLookup.Router.ChangeFib | v1.x/awiefw/configs/kernel-route.c:442-480 | a change of the routing tables followed by rt_cache_flush(0) leaves a coherent, empty cache, whatever flush was pending |
| RouteLookup.CoherentSmaller | v1.x/awiefw/configs/kernel-route.c:616-698 | a table with only old entries and a right new one is coherent |
| RouteRuns.Release | v1.x/awiefw/configs/kernel-route.c:327-331 | letting go of a route lowers the count of that entry and no other |
| RouteRuns.SetExpires | v1.x/awiefw/configs/kernel-route.c:1136-1145 | exactly the entry with the key gets the expiry time |
| RouteRuns.Advise | v1.x/awiefw/configs/kernel-route.c:898-923 | negative advice on any held route leaves a coherent cache with nothing new |
| RouteRuns.Serve | v1.x/awiefw/configs/kernel-route.c:1639-1701 | in every run of lookups, output routes, released references, expiry times, negative advice, redirects, collections, periodic expiries, immediate and delayed flushes with their timer, and flushed table changes, in any order, each lookup is answered as the tables then in force would answer it for the packet's addresses, interface, mark and masked tos; there is no answer only for a refusal, or a unicast route whose neighbour cannot be bound |
| FlushTimer.Flusher.CacheFlush | v1.x/awiefw/configs/kernel-route.c:442-480 | the cache is emptied exactly for a request without delay, or when the deadline of a pending flush has passed or, for a user, is nearer than the delays differ; else the timer is set for the delay asked for or the deadline, whichever comes first |
| FlushTimer.FirstRequest | v1.x/awiefw/configs/kernel-route.c:442-480 | from rest, a timer is set within the deadline exactly for an effective delay within the maximum |
| FlushTimer.MinimumAboveMaximum | v1.x/awiefw/configs/kernel-route.c:447-448 | a request without a delay for which that fails |
| FlushTimer.Flusher.Fire | v1.x/awiefw/configs/kernel-route.c:417-436 | a timer that is due empties the cache and leaves no deadline |
| FlushTimer.PendingIsServed | v1.x/awiefw/configs/kernel-route.c:452-467 | in every run a pending flush comes by its deadline, whatever requests arrive meanwhile and whatever they ask for |
| FlushTimer.EveryRequestIsServed | v1.x/awiefw/configs/kernel-route.c:417-480 | in every run in which requests made at rest keep within the maximum delay, the cache is emptied within that delay of each request |
| RateLimits.RouteRate.SendRedirect | v1.x/awiefw/configs/kernel-route.c:941-986 | sent exactly if fewer than redirect_number have been sent since the last reset and the backoff has passed; what is sent is counted and timed, what is held back is neither, and once the number is used up every packet is timed |
| RateLimits.RouteRate.IpError | v1.x/awiefw/configs/kernel-route.c:988-1022 | the bucket gains a token a tick up to the burst; the ICMP code of the route's error is sent exactly if that covers the cost, which is then taken; other errors are silent and cost nothing |
| RateLimits.BacksOffOnceMore | v1.x/awiefw/configs/kernel-route.c:955-972 | each packet keeps the spacing of the redirects sent since the last reset |
| RateLimits.RedirectsSpaced | v1.x/awiefw/configs/kernel-route.c:952-972 | on every trace, of the redirects sent since the limiter last reset there are at most redirect_number, and the n-th came more than load * (2^n - 2) after the first |
| RateLimits.AnsweredAfterSilence | v1.x/awiefw/configs/kernel-route.c:949-972 | a packet after a silence that outlasts the load limit gets a redirect |
| RateLimits.RedirectsBoundedIff | v1.x/awiefw/configs/kernel-route.c:925-972 | on every trace of a fresh route at most redirect_number redirects are sent between silences, if and only if redirect_number <= 1 or redirect_load is 0 or redirect_silence is 0 |
| RateLimits.HeldOrRecorded | v1.x/awiefw/configs/kernel-route.c:952-972 | with such a setting a packet is recorded or nothing has been sent since the reset |
| RateLimits.BoundedBetween | v1.x/awiefw/configs/kernel-route.c:930-933 | with such a setting a silence starts the limiter anew and the bound holds until the next |
| RateLimits.NeverStops | v1.x/awiefw/configs/kernel-route.c:952-972 | with any other setting, any number of redirects can be provoked without a gap longer than the silence, by packets the backoff holds back |
| RateLimits.Unbounded | v1.x/awiefw/configs/kernel-route.c:925-972 | the same from a fresh route |
| RateLimits.DefaultsExceed | v1.x/awiefw/configs/kernel-route.c:111-113 | with the default settings, a trace without a silence that causes ten redirects where nine are allowed |
| RateLimits.ErrorsBounded | v1.x/awiefw/configs/kernel-route.c:1009-1017 | in every window of length T at most (burst + T) / cost errors are sent for one route, from any state and for any arrivals |
| RateLimits.SpacedErrorsSent | v1.x/awiefw/configs/kernel-route.c:1009-1017 | errors at least the cost apart are all sent if the burst covers the cost |
| RateLimits.SmallBurstSendsNothing | v1.x/awiefw/configs/kernel-route.c:1009-1017 | if it does not, none ever is |
| Md5Transform.FFIsOperation | v2.0/login/md5.c:80-84 | the first round's macro, with the program's index, shift and constant, is operation i of section 3.4 of RFC 1321 |
| Md5Transform.IIIsOperation | v2.0/login/md5.c:95-99 | the same for the fourth round |
| Md5Transform.Transform | v2.0/login/md5.c:175-270 | the 64 macro calls process a block as section 3.4 defines it |
| Md5Spec.WordsAppend | v2.0/login/md5.c:126-134 | words of a message can be formed block by block |
| Md5Context.CountBits | v2.0/login/md5.c:117-120 | the carry logic adds eight times the new bytes to the two-word counter, modulo 2^64 |
| Md5Context.BufferPosition | v2.0/login/md5.c:115 | the counter tells how full the partial block is |
| Md5Context.AbsorbByte | v2.0/login/md5.c:122-136 | a byte joins the partial block, and a full block joins the registers |
| Md5Context.Context.Update | v2.0/login/md5.c:109-137 | the context holds the old message followed by the new bytes |
| Md5Context.LastBlock | v2.0/login/md5.c:145-162 | padding and length complete the padded message of sections 3.1 and 3.2 |
| Md5Context.Context.Final | v2.0/login/md5.c:139-171 | the digest is that of the whole message |
| Md5Context.DigestChunks | v2.0/login/md5.c:322-325 | for every message and every way of reading it in chunks, the digest is that of sections 3.1 to 3.5 of RFC 1321 |
| Md5Words.RotatedOnce | v2.0/login/md5.c:75-76 | rotating by one doubles the word and brings the carry in again at the low end |
| Md5Words.RotatedAgain | v2.0/login/md5.c:75-76 | every rotation is that one, repeated |
| Md5TestSuite.DigestOfAbc | v2.0/login/md5.c:68-270 | the definition that the program computes gives the digest of "abc" in section A.5 of RFC 1321 |
| TagSyntax.Step | v3.0/src/filters/cfmod_htmlfilter.c:134-198 | each turn of the scanning loop advances and keeps the slice being read in place |
| TagParser.CStringIs | v3.0/src/filters/cfmod_htmlfilter.c:153-162 | a slice cut with NUL reads back as the C string it was |
| TagParser.TurnAgrees | v3.0/src/filters/cfmod_htmlfilter.c:134-198 | cutting in place never damages a slice already recorded or still to be read |
| TagParser.Turn | v3.0/src/filters/cfmod_htmlfilter.c:134-198 | one turn on the scratch buffer and pointer array is one step of the scanner |
| TagParser.ParseTag | v3.0/src/filters/cfmod_htmlfilter.c:111-208 | at most size/2 attributes; names in the first half of the array, values in the second; every pointer denotes a NUL-terminated slice inside the scratch copy, exactly the attribute or value that was scanned |
| TagPrinter.ParsePrint | v3.0/src/filters/cfmod_htmlfilter.c:111-208 | parsing what insertTag prints for attributes with plain names and values recovers them, in order |
| TagRenderings.ParseRendered | v3.0/src/filters/cfmod_htmlfilter.c:111-208 | however a tag is written (any white space between attributes, values bare or in either kind of quotes and holding anything but an unescaped quote of that kind, white space on one side of '=', comments), what is read is what is meant, in order |
| TagRenderings.PairReadIff | v3.0/src/filters/cfmod_htmlfilter.c:136-183 | a pair with a bare value is read as it is meant if and only if there is no white space on one side of '=' |
| HtmlLexer.RunAppend | v3.0/src/filters/cfmod_htmlfilter.c:236-348 | filtering a concatenation is filtering one part after the other |
| HtmlLexer.ChunksDoNotMatter | v3.0/src/filters/cfmod_htmlfilter.c:246-347 | the byte machine's output and final state depend only on the concatenated input |
| HtmlFilter.FilterChunks | v3.0/src/filters/cfmod_htmlfilter.c:227-355 | successive calls on the filter object, with unknown content length, leave the state and output of one call on the concatenation, or -1 exactly if there is a NUL byte in it |
| HtmlLexer.QuoteLasts | v3.0/src/filters/cfmod_htmlfilter.c:334-346 | a quoted value lasts to the first quote of its kind, even behind a backslash |
| HtmlDocuments.CommentLasts | v3.0/src/filters/cfmod_htmlfilter.c:274-281 | a comment lasts to the first '>' behind two dashes of its own |
| HtmlDocuments.DocumentRun | v3.0/src/filters/cfmod_htmlfilter.c:246-347 | for every document of text, tags with quoted values that may hold brackets, declarations and comments: output, eat mode and posout are those its parts add up to, each tag's attributes going to the callback once |
| HtmlDocuments.FilterDocument | v3.0/src/filters/cfmod_htmlfilter.c:227-355 | the same on the filter object, however the document is cut into chunks |
| HtmlDocuments.HandedOver | v3.0/src/filters/cfmod_htmlfilter.c:209-224 | a tag written from parts is handed over with the attributes that are meant, and passes only if it is not handled and the filter is not eating |
| HtmlLexer.StaysUnescaped | v3.0/src/filters/cfmod_htmlfilter.c:336-346 | inside a tag no backslash is ever remembered |
| HtmlLexer.StepConserves | v3.0/src/filters/cfmod_htmlfilter.c:246-347 | each byte goes through or is pending, except a `<` at the start of a tag or inside one |
| HtmlLexer.ConservedIffNothingRepaired | v3.0/src/filters/cfmod_htmlfilter.c:227-355 | with a callback that leaves tags alone, output and pending tag are the bytes consumed at every point if and only if no `<` is read in T_STAG, T_TAG or T_EQU |
| HtmlFilter.Filter.ProcessTag0 | v3.0/src/filters/cfmod_htmlfilter.c:111-225 | the callback gets exactly the attributes of the tag; without any it is not called and nothing changes |
| HtmlFilter.Filter.Byte | v3.0/src/filters/cfmod_htmlfilter.c:246-347 | the switch on the object's fields is the lexer's step; processTag0 is only ever given a tag that starts with `<` |
| HtmlFilter.Filter.CfFilter | v3.0/src/filters/cfmod_htmlfilter.c:227-355 | -1 exactly on a NUL byte; else the lexer's run over the chunk, then blanks up to an announced length that has been read |
| HtmlFilter.Filter.InsertTag | v3.0/src/filters/cfmod_htmlfilter.c:31-79 | prints exactly the attributes that are not NULL, or nothing when eating or without room; posout grows by what was printed |
| HtmlFilter.Filter.PrintedLength | v3.0/src/filters/cfmod_htmlfilter.c:45-53 | the length computed beforehand is the length printed |
| HtmlFilter.KeptAt | v3.0/src/filters/cfmod_htmlfilter.c:45-76 | each attribute that is not NULL is printed behind as many as precede it, and no others are |
| HtmlFilter.InsertedTagIsReadBack | v3.0/src/filters/cfmod_htmlfilter.c:31-79 | what insertTag prints, processTag0 reads back: the attributes that are not NULL with their values, in order |

## Left out

- RuleGraph.Followable and Reference.Policy: control from a valid hook stays in the table, and a policy rule is an unconditional verdict; the kernel reads outside the table where the first does not hold, before it has checked anything, and never checks the second.
- TableAdmin.TranslateTable and TableAdmin.DoReplace: say nothing of tables that control leaves from a valid hook, for which the kernel reads memory that is no rule.
- Rule offsets are positions and a rule is followed by position + 1; sizes, alignment and the byte-level walk of IPT_ENTRY_ITERATE (with the size checks of check_entry_size_and_hooks beyond those on hooks and rule count) are not modelled.
- A module's own check is a function of the match or target and the rule; the hook mask it is also given is not modelled.
- Targets do not call the rule engine again; the TCP, UDP and ICMP matches and all registered extensions are arbitrary functions.
- TableAdmin.DoReplace: memory exhaustion and the size checks on the request all appear as one early failure, and copying the counters to the caller, whose failure the code ignores, is not modelled.
- Locks and interrupted system calls appear only as the failures they cause; do_replace and a traversal do not overlap.
- Constants of the netfilter, routing and socket headers (flag bits, verdict codes, error numbers, IPTOS_RT_MASK) are written out; those headers are not part of this model.
- RouteEntries.HashCode: masking with size - 1 is written as the remainder by size; how well it spreads keys is not stated.
- Time does not wrap, and the comparisons through signed differences of jiffies are plain comparisons.
- RouteLookup.Router.RouteInput: the slow path, with the choice between ip_route_input_mc and ip_route_input_slow, is a function of the key and the tables in force; NAT, multipath and dst_alloc failing on this path are left out.
- RouteLookup.Router.Redirect: the checks on the device and on the new gateway are one parameter.
- Lookups of output routes are not claimed to be complete: ip_route_output_key hashes an unmasked tos; output routes enter the model where they are interned.
- dst_free does nothing; the outcomes of binding neighbours and allocating, the count of allocated entries and the clock are parameters; statistics, sysctl, netlink and /proc are left out.
- RateLimits.RedirectsSpaced: counts between resets of the limiter; RedirectsBoundedIff says when that is between silences.
- A change of the routing tables with a delayed flush leaves stale routes until the flush; only the immediate flush is claimed to keep lookups right.
- Bytes of the HTML filter are characters, and isspace is that of the C locale; the FIX_BROKEN_HTML variant, debugging output and module registration are left out.
- HtmlFilter.Filter.CfFilter: with a callback that inserts tags nothing is claimed about the total length, because insertTag compares with posin, which already counts the whole chunk.
- HtmlDocuments.DocumentRun: for documents whose tags are complete; a tag cut off by a `<`, or not closed, is covered by StepConserves and ChunksDoNotMatter only.
- HtmlLexer.Callback: a module's processTag is a function of the attributes and the eat mode.
- MD5: words have 32 bits, as the comment at line 39 intends; updates are shorter than 2^32 bytes, as their length parameter is; nothing is claimed about collisions; printing and comparing digests is left out.
- Debugging code under CONFIG_NETFILTER_DEBUG and RT_CACHE_DEBUG is left out.
- Long loop bodies and nested loops are cut into methods of their own.
- The login menus, proxy and virus-scanner modules, installers, database and browser scripts are not modelled.
