# Sponge: verified models of its control components

Sponge is a desktop on the Genode framework whose system configuration is
kept by a handful of small daemons. This project models four of them, and
the desktop's parsers that must agree with one of them, in
Dafny and proves what they are relied on for.

* **The top-level supervisor** (`Supervisor*.dfy`, with `TextScan`,
  `XmlText`, `AttrText` and `KillMarkers`): a timed machine of five phases,
  driven once per tick by a fault flag that may do anything. It restarts the
  desktop by publishing a configuration template in which every kill marker
  has been replaced by a rising version. The results cover whole runs (which
  reports are a fault, when it acts and what it then sends, how often, how long
  it may stay away, and exactly when it is certain to come back) and the text work (which bytes of a template are
  extracted and what is substituted).
* **The package daemon** (`Pkg*.dfy`): a depth-first dependency resolver over
  tables of fixed size, the installed set re-derived from the roots, the
  running set, the two generated sandbox configurations, the root store and
  the seeding from the bake manifest.
* **The configuration daemon and the panel's parsers** (`Config*.dfy`,
  `PanelKeys`, `EditDistance`): value validation, panel keys that come into
  being on first write, both ways of writing a value, and the agreement with
  the code in the desktop that reads them.
* **The notification queue** (`Notifier.dfy`, `NotifierEntries.dfy`).

Objects with fields are classes (`SupervisorMain.Main`, `PkgMain.Main`,
`ConfigDaemon.Main`, `Notifier.Main`); their methods and the loops of the
other files are proved equal to functions, and the theorems are about those
functions and about histories of them.

## What to know when reading

* Texts and names are sequences of characters; the source's bytes are
  characters here, and names are ordered by character codes as `strcmp` does.
  Terminating zeros are not part of a text.
* Tick and version counters, digits and the policy's arithmetic are 32-bit and
  wrap around. The write counter of the package daemon, clocks and
  notification ids are not bounded.
* `StepAt`, `IsRun` and `Health` describe runs as functions from ticks to
  states; `HistoryIsRun` shows that the histories of the daemon itself are
  such runs.
* Package metadata is a value per name. `Honest` says that a package's
  metadata carries the name it is indexed under; the results about installed
  packages need it, because the tables are searched by that name.
* What budgets, the image and the shortcut grammar answer is a parameter:
  `admitted`, `staged` and the accepted set of `Bindings`.
* The supervisor's reporters exist from the start; in the source they are
  constructed on the first tick that needs them.

## Where the code and its documentation differ

The code is what is modelled. Each of these is a theorem.

* The comment at `_publish` counts on its own truncation test. That test never
  holds; what keeps partial configurations away is that a cut rendering is
  longer than the report buffer (`NothingPartial`).
* Exits of children are said to count only by their rise above a healthy
  baseline, so that one death is no fault for ever. The baseline is taken only
  while no fault is seen, so it never leaves zero, and one death is a fault for
  as long as the reports list it (`HistoryRemembers`, `DeathLatches`).
* `is_close` does not look at the character after the name, and a first tag
  that closes itself is not returned alone (`ExtractExact`,
  `StrayCutsShort`).
* The attribute scan is described as having no failure but "not found". It
  reads a wrong value where an earlier value has the key and a separator in it
  (`PlaceExact`, `Misread`, `TitleMisleads`).
* "Back to nominal within a bound" needs the window sums to stay below 2^32
  (`ReturnsIffTimely`); any poll period but one millisecond gives that
  (`PolicyTimely`, `TimelyExact`, `StallingPolicy`).
* Section 4.6 of `docs/12-package-format.md` promises an exclusive-group check
  on installation. It stands in the replay of answers, not in the
  installation (`InstallExclusive`, `SecondFramebuffer`).
* Section 4.5 says that the application sandbox offers no hardware service.
  It offers one exactly when one is among the first 64 services that its
  packages declare (`HardwareOffered`, `PlatformOffered`).
* With roots that are restored or seeded twice, or no longer indexed, an
  installation can be answered with success and have no effect
  (`InstallTakesEffect`, `InstallLost`), and a removed package can stay
  (`RemoveTakesEffect`, `RemoveLost`). With distinct indexed roots, which every
  request keeps, an accepted installation takes effect (`InstallAlways`), and a
  removed root is gone and its package with it, unless another root needs it
  (`RemoveAlways`).
* The comment on seeding says that removals stay authoritative across
  reboots. A user who removes everything gets the baked packages back
  (`Reboot`, `RemovedComesBack`).
* The comment at the configuration daemon's request handler says that every
  write takes the same path. A request chooses the table by the index alone,
  and flat keys become unsettable one by one as panel keys are created
  (`MisroutedExact`, `SetExact`, `ColourRefused`). A refused first write leaves an entry behind
  (`RefusedExact`).
* Time stamps of notifications count from the first post, sweeps do not, so
  entries go early (`LifetimeExact`, `FirstLost`). A limit lowered by a
  configuration is not enforced on the entries there are (`LimitKept`,
  `OverLimit`).

## Model

| member | source | states |
|---|---|---|
| TextScan.TagAt | repos/sponge/src/sponge_supervisor/text_scan.h:41-54 | true exactly when the tag text stands at the position and fits before the end |
| TextScan.SkipTag | repos/sponge/src/sponge_supervisor/text_scan.h:203-222 | the loop finds the end of a tag, passing over `>` inside either kind of quotes |
| TextScan.ElementText | repos/sponge/src/sponge_supervisor/text_scan.h:224-267 | the depth-counting loop finds the span that the recursive scan defines, with the same leaf, open and close tests and the depth never below zero |
| TextScan.ScanAttr | repos/sponge/src/sponge_supervisor/text_scan.h:79-137 | the loop returns the value that the recursive lookup defines, for quoted and bare values |
| XmlText.ExtractExact | repos/sponge/src/sponge_supervisor/text_scan.h:169-267 | for every printed document, comments and processing instructions without tags in them included, that has a node of the name: the scan returns the first one's bytes, all and only, if and only if it is no leaf and holds no end tag whose name properly extends the name |
| XmlText.ExtractNone | repos/sponge/src/sponge_supervisor/text_scan.h:169-267 | a document without a tag of the name yields nothing |
| XmlText.ExtractLeaf | repos/sponge/src/sponge_supervisor/text_scan.h:241-247 | when the first tag of the name is self-closing, what is returned is never that leaf |
| XmlText.StrayCutsShort | repos/sponge/src/sponge_supervisor/text_scan.h:190-196 | a concrete document: an inner end tag that extends the name ends the element early |
| XmlText.DepthKept | repos/sponge/src/sponge_supervisor/text_scan.h:224-267 | a forest leaves the depth of the scan as it was exactly when none of its end tags is mistaken for the name's |
| XmlText.TemplateExact | repos/sponge/src/sponge_supervisor/main.cc:370-384 | the two-level lookup hands on exactly the first inner `<config>` element of the wrapper, if and only if that element is itself extracted exactly; nothing when there is none |
| AttrText.PlaceExact | repos/sponge/src/sponge_supervisor/text_scan.h:85-111 | for every text with a head, a printed attribute list and a tail: the scan stops at the first attribute of exactly that name, or finds none when there is none, if and only if the key does not stand before a separator ahead of it, in the head, between attributes, in a value or in the tail |
| AttrText.AttrExact | repos/sponge/src/sponge_supervisor/text_scan.h:79-137 | then it returns the value of that attribute, quoted or bare, and nothing when there is none; names that merely end in the key do not count |
| AttrText.Misread | repos/sponge/src/sponge_supervisor/text_scan.h:23-26 | in every text where an earlier value has the key and an equals sign in it, what follows there is read instead of the attribute |
| AttrText.TitleMisleads | repos/sponge/src/sponge_supervisor/text_scan.h:23-26 | a concrete document whose poll period of 250 is read as 9 |
| AttrText.SpellingsAgree | repos/sponge/src/sponge_supervisor/text_scan.h:8-13 | the XML document and the HID document of the same attributes, each with its head and with quotes where HID needs them, both give every key the value of its first attribute, as long as no earlier value has the key in it before a separator |
| AttrText.ReadNum | repos/sponge/src/sponge_supervisor/main.cc:289-304 | a policy number is the leading digits modulo 2^32; the default stays when the attribute is missing or empty |
| AttrText.NumRead | repos/sponge/src/sponge_supervisor/main.cc:289-304 | for a key that stands nowhere else before a separator, the number read is the leading digits of the attribute's value modulo 2^32, or the default when it is missing or empty |
| AttrText.DecimalDenotes | repos/sponge/src/sponge_supervisor/main.cc:289-304 | so a 32-bit number printed in decimal is read back as itself |
| KillMarkers.RenderDecimal | repos/sponge/src/sponge_supervisor/text_scan.h:281-292 | the digit loops over two small arrays produce the decimal numeral of every 32-bit number |
| KillMarkers.SubstituteDecimal | repos/sponge/src/sponge_supervisor/text_scan.h:274-320 | the buffer holds the text with every marker replaced by the numeral when that fits below the capacity less one; otherwise at least capacity less eleven bytes have been written |
| KillMarkers.ReplaceIsJoin | repos/sponge/src/sponge_supervisor/text_scan.h:294-318 | the replaced text is the marker-free segments joined by the numeral: bytes outside the marker sites are unchanged |
| KillMarkers.JoinMarker | repos/sponge/src/sponge_supervisor/text_scan.h:294-318 | joining the same segments by the marker gives back the original text |
| KillMarkers.EveryMarkerReplaced | repos/sponge/src/sponge_supervisor/text_scan.h:294-318 | no marker is left in the result, not even across a replaced site |
| KillMarkers.DecimalInjective | repos/sponge/src/sponge_supervisor/text_scan.h:281-292 | different numbers are rendered differently |
| KillMarkers.SiteHolds | repos/sponge/src/sponge_supervisor/text_scan.h:294-318 | the k-th site of the result holds the numeral |
| KillMarkers.SitesDiffer | repos/sponge/src/sponge_supervisor/text_scan.h:294-318 | with two different numbers the k-th sites hold different numerals |
| Supervisor.Excluded | repos/sponge/src/sponge_supervisor/main.cc:485-521 | the loop over the ignore list is the recursive membership test, with its treatment of a trailing comma |
| Supervisor.ExcludedExact | repos/sponge/src/sponge_supervisor/main.cc:485-521 | for every name the test is exact membership among the comma-separated entries, where a name with a comma is never listed and an empty one only by an empty entry before the end |
| Supervisor.PolicyTimely | repos/sponge/src/sponge_supervisor/main.cc:340-353 | with any poll period but one millisecond no window sum overflows, whatever the windows |
| SupervisorMain.Main.constructor | repos/sponge/src/sponge_supervisor/main.cc:844-863 | the policy is that of the configuration text, or the built-in one without deadlines; the initial fields are those of the specification |
| SupervisorMain.Main.HandleState | repos/sponge/src/sponge_supervisor/main.cc:523-580 | one pass over the report leaves the largest counted skip, the exits not on the ignore list and the starting children |
| SupervisorMain.Main.FindTemplate | repos/sponge/src/sponge_supervisor/main.cc:370-384 | the lookup of the wrapper and then of `<config>` is the two-level extraction |
| SupervisorMain.Main.PublishTemplate | repos/sponge/src/sponge_supervisor/main.cc:417-469 | the method does what the specification of a publication does, buffer and all; what that sends is `TickSendsExact` and `PrintedSends` |
| SupervisorMain.Main.IsFaulted | repos/sponge/src/sponge_supervisor/main.cc:581-610 | the method computes the specified flag; what the reports have to say for it is `FlagExact` |
| SupervisorMain.Main.EnterPhase | repos/sponge/src/sponge_supervisor/main.cc:628-637 | entering a phase stamps the tick; entering NOMINAL also forgets the fault run |
| SupervisorMain.Main.TickNominal | repos/sponge/src/sponge_supervisor/main.cc:661-728 | the NOMINAL branch changes every field as the reaction function says |
| SupervisorMain.Main.TickContain | repos/sponge/src/sponge_supervisor/main.cc:730-790 | the CONTAIN branch likewise |
| SupervisorMain.Main.TickConsole | repos/sponge/src/sponge_supervisor/main.cc:792-831 | the CONSOLE branch likewise |
| SupervisorMain.Main.HandleTick | repos/sponge/src/sponge_supervisor/main.cc:641-842 | a whole tick, with its publications and the console flag, equals the pure step on the abstract state |
| SupervisorCore.StepInv | repos/sponge/src/sponge_supervisor/main.cc:641-842 | each tick keeps the bounds on the memories of faulty and healthy time, for every policy, counters modulo 2^32 included |
| SupervisorCore.StepFaultRun | repos/sponge/src/sponge_supervisor/main.cc:661-728 | a running fault memory means that every tick since was faulty, and CONTAIN is entered only when it has covered the window |
| SupervisorCore.StepReturning | repos/sponge/src/sponge_supervisor/main.cc:641-842 | if the window sums do not overflow, every tick outside NOMINAL brings the return strictly nearer, whatever the fault flag |
| SupervisorRuns.Escalation | repos/sponge/src/sponge_supervisor/main.cc:661-728 | a kill comes only after a window of at least max(1, grace) ticks, every one of them faulty, in NOMINAL |
| SupervisorRuns.KillRate | repos/sponge/src/sponge_supervisor/main.cc:628-728 | two kills are at least settle + 2 + max(1, grace) ticks apart, under every signal and policy |
| SupervisorRuns.RateAttained | repos/sponge/src/sponge_supervisor/main.cc:628-764 | under every policy some signal has two kills exactly that far apart |
| SupervisorRuns.BoundedReturn | repos/sponge/src/sponge_supervisor/main.cc:730-840 | if the window sums do not overflow, the machine is back in NOMINAL within the stated bound after every kill, whatever the signal does |
| SupervisorRuns.PhaseLasts | repos/sponge/src/sponge_supervisor/main.cc:730-840 | if the window sums do not overflow, CONTAIN lasts at most max(1, grace) + settle ticks, CONSOLE max(1, console) + settle, RELEASE max(1, settle), under every signal |
| SupervisorRuns.BoundAttained | repos/sponge/src/sponge_supervisor/main.cc:730-840 | if the window sums do not overflow, some signal uses the bound up to the last tick |
| SupervisorRuns.ReturnsIffTimely | repos/sponge/src/sponge_supervisor/main.cc:730-840 | every kill is followed by a return under every signal if and only if neither grace + settle nor console + settle reaches 2^32 |
| SupervisorRuns.Stalls | repos/sponge/src/sponge_supervisor/main.cc:730-831 | when a sum does overflow, a signal is given that keeps the machine away from NOMINAL for ever |
| SupervisorRuns.ConsoleArmed | repos/sponge/src/sponge_supervisor/main.cc:399-415 | in every run the console is armed exactly while the phase is CONSOLE |
| SupervisorRuns.ArmingFollowsKill | repos/sponge/src/sponge_supervisor/main.cc:766-790 | every arming goes back to a kill at least max(1, grace) ticks earlier, stays in CONTAIN in between, and comes right after `system_console` on the same tick |
| SupervisorRuns.ReleaseRestores | repos/sponge/src/sponge_supervisor/main.cc:792-840 | after disarming nothing is published for a settle window, at whose end the nominal configuration is |
| SupervisorTheorems.HistoryIsRun | repos/sponge/src/sponge_supervisor/main.cc:523-842 | every history of reports and ticks is a run of the timed machine: the states agree, the run's fault flags are those the component computes at its ticks, and the run's actions are those the component carries out |
| SupervisorHistories.EscalationHere | repos/sponge/src/sponge_supervisor/main.cc:661-728 | a tick of the component that publishes a kill sees its own fault flag up, as did every tick of the window before it, all spent in NOMINAL |
| SupervisorHistories.KillRateHere | repos/sponge/src/sponge_supervisor/main.cc:628-728 | two kills of the component are at least settle + 2 + max(1, grace) of its ticks apart |
| SupervisorHistories.ReturnHere | repos/sponge/src/sponge_supervisor/main.cc:730-840 | after a kill the component is back in NOMINAL within the bound as soon as so many ticks have come, whatever the reports say |
| SupervisorHistories.ConsoleSent | repos/sponge/src/sponge_supervisor/main.cc:399-415 | in every history the last console report sent arms the console if and only if the component is in CONSOLE |
| SupervisorHistories.ArmingHere | repos/sponge/src/sponge_supervisor/main.cc:766-790 | a tick that arms the console comes at least max(1, grace) ticks after a kill, all in CONTAIN; `system_console` is published first and the arming is the last thing sent |
| SupervisorHistories.RestoresHere | repos/sponge/src/sponge_supervisor/main.cc:792-840 | after a disarming tick, the first one aside, the component sends nothing for a settle window, and the tick at its end publishes the nominal configuration |
| SupervisorFaults.ObserveExact | repos/sponge/src/sponge_supervisor/main.cc:523-580 | the counters of a report: the largest skip reaches the limit exactly when a child that is not exempt for starting has missed so many, and the exits are the number of exited children not on the ignore list, modulo 2^32 |
| SupervisorFaults.HistoryRemembers | repos/sponge/src/sponge_supervisor/main.cc:754-757 | in every history the counters are those of the last report, the tick counter counts the ticks modulo 2^32, and the baseline for exits is zero |
| SupervisorFaults.FlagExact | repos/sponge/src/sponge_supervisor/main.cc:581-610 | a tick sees a fault if and only if no missed heartbeat is allowed at all, or the last report holds a child that missed too many or a number of unlisted exits that is no multiple of 2^32, or the boot grace has passed without a report |
| SupervisorFaults.AlarmingSome | repos/sponge/src/sponge_supervisor/main.cc:523-580 | in a report of fewer than 2^32 children a single slow or unlisted exited child is a fault, and nothing else is |
| SupervisorFaults.DeathLatches | repos/sponge/src/sponge_supervisor/main.cc:246-255 | as long as the reports list one child that has exited and may not, every tick sees a fault: the baseline that should make exits count by their rise never moves |
| SupervisorFaults.KillDue | repos/sponge/src/sponge_supervisor/main.cc:703-727 | from any state in NOMINAL a lasting fault brings the kill on exactly the tick that is due and on none before |
| SupervisorFaults.KillComes | repos/sponge/src/sponge_supervisor/main.cc:581-727 | a component in NOMINAL whose reports go on holding a fault publishes a kill within max(1, grace) + 1 of its ticks, one more when the fault is first seen by a tick whose number is a multiple of 2^32, and exactly then if no fault was pending |
| SupervisorSends.TickSendsExact | repos/sponge/src/sponge_supervisor/main.cc:399-469 | whatever the templates text: a tick sends, for each publication among its actions, the extracted template with the next version at every marker if it ends in `</config>` and the rendering has at most 131072 bytes, and for each arming its console report, and nothing else |
| SupervisorSends.ReportSends | repos/sponge/src/sponge_supervisor/main.cc:523-580 | a report sends nothing |
| SupervisorSends.PrintedSends | repos/sponge/src/sponge_supervisor/main.cc:370-469 | the same said of a printed document: the first `<config>` element in the first wrapper of the name is sent, markers replaced, if and only if its end tag is plain and the rendering fits |
| SupervisorSends.RendersAsked | repos/sponge/src/sponge_supervisor/main.cc:417-469 | the renderings that make up the version are exactly the publications of templates with a plain end tag |
| SupervisorSends.KillSent | repos/sponge/src/sponge_supervisor/main.cc:661-728 | every kill of the component appends the nominal configuration with the next version at every marker, if and only if it fits |
| SupervisorSends.WedgedRestarts | repos/sponge/src/sponge_supervisor/main.cc:581-728 | from reports to what is sent: with a fault that lasts, the nominal configuration is sent again under the next version within max(1, grace) + 1 ticks, one more when a tick number wraps |
| SupervisorPolicy.ReadPolicy | repos/sponge/src/sponge_supervisor/main.cc:289-354 | the policy read from the text, number by number, with the defaults, the ignore list only when it fits, and the deadlines in ticks |
| SupervisorPolicy.PolicyRead | repos/sponge/src/sponge_supervisor/main.cc:289-354 | a policy written as attributes, in any order and spelling, each given or left out, is read field by field into its own place: numbers by their leading digits, switches only from `yes` and `no`, a list only up to 127 characters, and each with its own default; as long as no key stands before a separator ahead of its attribute |
| SupervisorPolicy.WindowsExact | repos/sponge/src/sponge_supervisor/main.cc:340-353 | each of the four printed times becomes the window of its own name: the least number of poll periods that lasts it, a period of zero standing for 250 ms; no window at all exactly when rounding up overflows 32 bits |
| SupervisorPolicy.DefaultPolicy | repos/sponge/src/sponge_supervisor/main.cc:203-208 | without attributes: three skipped heartbeats, starting children exempt, no ignore list, windows of 120, 16, 16 and 12 ticks |
| SupervisorPolicy.TimelyExact | repos/sponge/src/sponge_supervisor/main.cc:346-353 | the windows do not overflow if and only if the poll period is not one millisecond or the times do not add up to 2^32 |
| SupervisorPolicy.PrintedReturns | repos/sponge/src/sponge_supervisor/main.cc:346-353 | so a supervisor with a printed policy returns to NOMINAL after every kill under every signal if and only if that holds of the times it was given |
| SupervisorPolicy.StallingPolicy | repos/sponge/src/sponge_supervisor/main.cc:346-353 | concrete times with which it does not |
| SupervisorKills.NothingPartial | repos/sponge/src/sponge_supervisor/main.cc:417-469 | everything ever sent is the complete template with all markers replaced by its version |
| SupervisorKills.SentFromPrinted | repos/sponge/src/sponge_supervisor/main.cc:370-469 | for a printed templates document everything sent under a name is the inner `<config>` element of its wrapper, byte for byte but for the versions at its markers |
| SupervisorKills.VersionsExact | repos/sponge/src/sponge_supervisor/main.cc:442-446 | two publications have the same version if and only if the number of renderings between them is a multiple of 2^32; in fewer than 2^32 ticks versions rise strictly |
| SupervisorKills.RenderedBound | repos/sponge/src/sponge_supervisor/main.cc:641-842 | a tick renders at most one template |
| SupervisorKills.TotalKill | repos/sponge/src/sponge_supervisor/main.cc:417-469 | two publications of a template differ at a marker site if and only if the number of renderings between them is no multiple of 2^32, and nowhere else; in fewer than 2^32 ticks they always differ |
| SupervisorKills.HistoryKill | repos/sponge/src/sponge_supervisor/main.cc:442-446 | the version is the number of renderings modulo 2^32, refused ones included, and every publication carries the number of its own rendering modulo 2^32 |
| SupervisorTheorems.HealthyUntouched | repos/sponge/src/sponge_supervisor/main.cc:581-681 | a history whose reports show only starting or quietly skipped children and only ignored exits, the first report within the boot grace, publishes once, with version 1, and never arms the console |
| PkgRepo.Room | repos/sponge/src/sponge_pkgd/main.cc:466-483 | distinct names from the index never fill a table that one more indexed name must enter |
| PkgMain.Main.LoadPackage | repos/sponge/src/sponge_pkgd/main.cc:947-1007 | the metadata of an indexed package, or the error the specification names, with the requiring parent |
| PkgMain.Main.Visit | repos/sponge/src/sponge_pkgd/main.cc:1303-1342 | the recursive method over the plan, visiting and done tables equals the specified visit and terminates on every graph |
| PkgMain.Main.Resolve | repos/sponge/src/sponge_pkgd/main.cc:1291-1300 | a resolution from cleared tables is the specified one |
| PkgResolver.ResolveExact | repos/sponge/src/sponge_pkgd/main.cc:1291-1342 | resolution succeeds if and only if all that the root reaches can be loaded and no cycle is reached; otherwise the error is a real reason, and a cycle error is a real dependency path from the root that closes on the repeated name |
| PkgResolver.PlanExact | repos/sponge/src/sponge_pkgd/main.cc:1291-1342 | on success the plan is exactly what the root reaches, each name once, every dependency before its dependents, the root last |
| PkgResolver.VisitSound | repos/sponge/src/sponge_pkgd/main.cc:1303-1342 | each visit keeps: what is done is loadable, reached, and behind its dependencies; the stack is a dependency path |
| PkgResolver.EnterBounded | repos/sponge/src/sponge_pkgd/main.cc:1327-1328 | the guard on the visiting table is true whenever a name is pushed, and the names not yet visited become fewer |
| PkgResolver.LeaveBounded | repos/sponge/src/sponge_pkgd/main.cc:1334-1341 | the guards on the done and plan tables are true whenever a name is finished |
| PkgResolver.ResolveAlike | repos/sponge/src/sponge_pkgd/main.cc:1303-1342 | what is installed influences nothing of a resolution but the reuse flag |
| PkgOrder.PlanOrder | repos/sponge/src/sponge_pkgd/main.cc:1303-1342 | the plan is made of the plans of the dependencies in the order declared, each without what came before, with the package last; whatever is installed |
| PkgOrder.InstalledOrder | repos/sponge/src/sponge_pkgd/main.cc:1537-1569 | the installed list holds the plans of the roots that resolve, in the order of the roots, each without what came before |
| PkgMain.Main.SyncInstalled | repos/sponge/src/sponge_pkgd/main.cc:1537-1569 | the nested loops derive the specified list from the roots |
| PkgInstalled.DeriveExact | repos/sponge/src/sponge_pkgd/main.cc:1537-1569 | the derived list is duplicate-free, dependency-closed, within its table, and holds exactly what the resolvable roots reach |
| PkgInstalled.AddOneSound | repos/sponge/src/sponge_pkgd/main.cc:1552-1562 | no package is dropped for want of room |
| PkgMain.Main.AddRoot | repos/sponge/src/sponge_pkgd/main.cc:1520-1527 | a new root is appended, unless present or the table is full |
| PkgMain.Main.DropRoot | repos/sponge/src/sponge_pkgd/main.cc:1786-1793 | the last root takes the place of the first occurrence of the removed one |
| PkgDaemon.RemoveRootExact | repos/sponge/src/sponge_pkgd/main.cc:1786-1793 | exactly one occurrence goes; the name stays if and only if it was there twice |
| PkgMain.Main.DropUninstalled | repos/sponge/src/sponge_pkgd/main.cc:1610-1617 | in-place compaction of the running table keeps exactly the installed names, in order |
| PkgMain.Main.SyncRunningState | repos/sponge/src/sponge_pkgd/main.cc:1608-1624 | the running table becomes the kept names followed by the installed autostart names that were missing |
| PkgDaemon.AddAutoExact | repos/sponge/src/sponge_pkgd/main.cc:1619-1623 | every installed autostart package ends up running, the others that were added were not there before, and the table never overflows |
| PkgMain.Main.IsRunning | repos/sponge/src/sponge_pkgd/main.cc:1574-1580 | membership in the occupied part of the running table |
| PkgMain.Main.AddRunning | repos/sponge/src/sponge_pkgd/main.cc:1588-1597 | a new name is appended, a present one or a full table changes nothing |
| PkgMain.Main.ExclusivePeer | repos/sponge/src/sponge_pkgd/main.cc:1636-1653 | the first running installed package that claims the same group, other than the package itself |
| PkgMain.Main.DoInstall | repos/sponge/src/sponge_pkgd/main.cc:1656-1768 | the new state and the list of added names are those of the specification, the store holds the new roots and both configurations are those of the new state; a refusal changes nothing |
| PkgMain.Main.DoRemove | repos/sponge/src/sponge_pkgd/main.cc:1771-1810 | the new state and the list of removed names are those of the specification, the store holds the new roots and both configurations are those of the new state |
| PkgMain.Main.DoLaunch | repos/sponge/src/sponge_pkgd/main.cc:1837-1932 | the outcomes come in the order of the source, and only a launch changes the state |
| PkgMain.Main.HandleRequest | repos/sponge/src/sponge_pkgd/main.cc:1428-1487 | the method treats a request, repeated or not, as the specification does, configurations included, and stores the roots exactly after an installation or a removal; what each operation does is `InstallServed` to `RepeatServed` |
| PkgMain.Main.constructor | repos/sponge/src/sponge_pkgd/main.cc:3485-3584 | start-up restores the roots from the store, or seeds them from the manifest and stores them, derives installed and running, and writes the first configurations |
| PkgDaemon.ServeInv | repos/sponge/src/sponge_pkgd/main.cc:1656-1932 | every request keeps the invariant; one that is not carried out changes nothing at all, one that is writes the configurations once |
| PkgDaemon.HistoryInv | repos/sponge/src/sponge_pkgd/main.cc:1428-1932 | after every history: installed is the derivation of the roots, running names are distinct, installed and include every installed autostart package, and the write counter is one plus the requests carried out |
| PkgRequests.RepeatsIgnored | repos/sponge/src/sponge_pkgd/main.cc:1439-1456 | a stream with repeated requests ends in the state that the fresh ones alone lead to |
| PkgRequests.StreamInv | repos/sponge/src/sponge_pkgd/main.cc:1428-1487 | the invariant and the write count hold after every stream of raw requests |
| PkgRequests.SignatureExact | repos/sponge/src/sponge_pkgd/main.cc:1445-1446 | a request shares its signature with no other if and only if none of its fields has the separator in it and the signature is shorter than its buffer holds |
| PkgRequests.SignatureReadable | repos/sponge/src/sponge_pkgd/main.cc:1436-1446 | among requests whose fields fit the strings they are read into, one with a known operation shares its signature with no other if and only if the signature cannot be split elsewhere into fields that fit |
| PkgDispatch.InstallServed | repos/sponge/src/sponge_pkgd/main.cc:1656-1769 | a fresh `install`: a package that resolves and is admitted becomes a root and is installed with all it reaches, nothing is lost, what is new and starts by itself runs, and the answer lists what came; otherwise nothing changes and the answer is the genuine resolution error or the refusal |
| PkgDispatch.RemoveServed | repos/sponge/src/sponge_pkgd/main.cc:1771-1810 | a fresh `remove`: the root goes, installed is exactly what another root needs, running what ran and is still installed, and the answer lists what went; a package that is not installed changes nothing |
| PkgDispatch.LaunchServed | repos/sponge/src/sponge_pkgd/main.cc:1837-1932 | a fresh `launch`: the package runs and nothing else changes, or the first refusal in the source's order, for a group exactly when a running package claims the same one, with that package named |
| PkgDispatch.ExplainServed | repos/sponge/src/sponge_pkgd/main.cc:1490-1500 | a fresh `explain` changes nothing and is answered with exactly what the package reaches, dependencies first, or with a genuine error |
| PkgDispatch.OthersServed | repos/sponge/src/sponge_pkgd/main.cc:1457-1487 | a listing, a request without a package and an unknown operation change nothing |
| PkgDispatch.RepeatServed | repos/sponge/src/sponge_pkgd/main.cc:1445-1456 | a request with the signature of the one before it changes nothing |
| PkgTheorems.RemoveExact | repos/sponge/src/sponge_pkgd/main.cc:1771-1810 | removal keeps exactly what a surviving root reaches and reports exactly the difference |
| PkgTheorems.RemoveTakesEffect | repos/sponge/src/sponge_pkgd/main.cc:1771-1810 | a removed package is gone if and only if it was a root at most once and no other root reaches it |
| PkgTheorems.RemoveDependency | repos/sponge/src/sponge_pkgd/main.cc:1771-1810 | removing an installed package that is no root is answered as a removal, of nothing, and leaves everything as it was |
| PkgTheorems.InstallExact | repos/sponge/src/sponge_pkgd/main.cc:1656-1768 | installation drops nothing, adds exactly what the package reaches when its root is taken, and reports exactly the additions |
| PkgTheorems.InstallTakesEffect | repos/sponge/src/sponge_pkgd/main.cc:1520-1527 | an installation answered with success leaves the package installed if and only if it was installed or the root table had room |
| PkgTheorems.InstallThenRemove | repos/sponge/src/sponge_pkgd/main.cc:1656-1810 | installing a package that is no root and removing it again restores roots, running sequence and installed sequence up to the reuse flag, with or without room for the root |
| PkgRoots.HistoryRootsOk | repos/sponge/src/sponge_pkgd/main.cc:1656-1810 | requests keep the roots distinct and indexed, from any such start |
| PkgRoots.InstallAlways | repos/sponge/src/sponge_pkgd/main.cc:1656-1768 | with distinct indexed roots every accepted installation makes the package a root and installs it, even when the table is as full as it can get |
| PkgRoots.RemoveAlways | repos/sponge/src/sponge_pkgd/main.cc:1771-1810 | with distinct indexed roots every removal takes the root, and the package stays only where another root needs it |
| PkgRoots.AnswersTrue | repos/sponge/src/sponge_pkgd/main.cc:1428-1810 | so in every history from such roots a reported success is one |
| PkgRoots.InstallLost | repos/sponge/src/sponge_pkgd/main.cc:1520-1527 | a restored table full of a name that is no longer indexed: an installation is answered with success and has no effect |
| PkgRoots.RemoveLost | repos/sponge/src/sponge_pkgd/main.cc:1786-1793 | a root listed twice: a removal is answered as carried out and the package stays |
| PkgRoots.RemovedComesBack | repos/sponge/src/sponge_pkgd/main.cc:3040-3047 | a staged package that the user removed as the last root is installed again after the reboot |
| PkgTheorems.InstallRunning | repos/sponge/src/sponge_pkgd/main.cc:1608-1624 | installation keeps what runs and adds the autostart packages it brings |
| PkgGroups.LaunchConflict | repos/sponge/src/sponge_pkgd/main.cc:1849-1867 | a launch is refused for its group if and only if another running package holds it, and the peer named is one that does |
| PkgGroups.LaunchExclusive | repos/sponge/src/sponge_pkgd/main.cc:1849-1867 | a launch never makes a second claimant |
| PkgGroups.InstallExclusive | docs/12-package-format.md:275-285 | the documented promise is kept by an installation if and only if the root table has no room for it or nothing that it starts claims a group held by a running package or by another package that it starts |
| PkgGroups.SecondFramebuffer | docs/12-package-format.md:275-285 | a concrete repository where installing the second framebuffer driver leaves both running |
| PkgGroups.HistoryExclusive | repos/sponge/src/sponge_pkgd/main.cc:1636-1653 | where no autostart package claims a group, at most one running package holds each group in every reachable state |
| PkgConfigs.SortByName | repos/sponge/src/sponge_pkgd/main.cc:2096-2111 | the in-place selection sort of an index array yields a permutation under which the names ascend |
| PkgConfigs.EmitStarts | repos/sponge/src/sponge_pkgd/main.cc:2256-2358 | the start nodes are strictly name-sorted, one for each running package of the kind, and no other; what a node says is `StartContents` |
| PkgConfigs.AscendingUnique | repos/sponge/src/sponge_pkgd/main.cc:2096-2111 | a strictly ascending list of start nodes is determined by its elements |
| PkgConfigs.StartsCanonical | repos/sponge/src/sponge_pkgd/main.cc:1942-1952 | the start nodes depend only on which packages are installed and running, not on the order or history |
| PkgConfigs.StartedOnce | repos/sponge/src/sponge_pkgd/main.cc:2256-2275 | in every reachable state each running package is started in exactly one of the two configurations, and nothing else is started |
| PkgGenerated.Generate | repos/sponge/src/sponge_pkgd/main.cc:1959-2080 | both configurations are written together, start nodes and services, for the same state |
| PkgMain.Main.GenerateRuntimeConfig | repos/sponge/src/sponge_pkgd/main.cc:1959-2080 | afterwards the configurations last written are those of the present state; every operation keeps it so |
| PkgGenerated.ConfigsRestored | repos/sponge/src/sponge_pkgd/main.cc:1656-1810 | installing a package that is no root and removing it again gives back identical start nodes and service lists in both configurations |
| PkgStarts.StartContents | repos/sponge/src/sponge_pkgd/main.cc:2256-2358 | the nodes of each sandbox are descriptions of its running packages, all and only: name, quotas and config are the package's, the binary is left out exactly when prefix and binary spell the name, and the i-th session has the i-th route |
| PkgStarts.RouteRouted | repos/sponge/src/sponge_pkgd/main.cc:870-894 | a session is routed to a sibling exactly when it names a route that is none of parent, nitpicker, vfs, event_filter, wm, report_rom, timer and input_drv, under its own label, or under the package's with `-ro` for a read-only File_system, or under none |
| PkgStarts.DescribesUnique | repos/sponge/src/sponge_pkgd/main.cc:2256-2358 | a description leaves one start node only |
| PkgStarts.AlwaysOffered | repos/sponge/src/sponge_pkgd/main.cc:2172-2231 | the twelve base services of applications and the five of drivers always come first |
| PkgServices.EmitServices | repos/sponge/src/sponge_pkgd/main.cc:2191-2231 | the nested loops yield the specified list, in order, cut off at 64 entries |
| PkgServices.ServicesExact | repos/sponge/src/sponge_pkgd/main.cc:2191-2231 | the list is distinct, starts with the fixed base, names only what base and packages declare, and names all of that if and only if it is at most 64 services |
| PkgServices.ServicesFirst | repos/sponge/src/sponge_pkgd/main.cc:2191-2231 | the list is the first 64 of the services that base and packages declare, in their order and each once |
| PkgServices.AllMeaning | repos/sponge/src/sponge_pkgd/main.cc:2191-2231 | the list without the limit has exactly the declared services, each once |
| PkgServices.HardwareOffered | docs/12-package-format.md:229-235 | the application sandbox offers a hardware service if and only if one is among the first 64 services declared; as long as no more are declared, if and only if an installed application package declares one |
| PkgServices.PlatformOffered | docs/12-package-format.md:229-235 | a concrete repository and root with which the daemon lists `Platform` for the application sandbox |
| PkgServices.DeclaredMeaning | repos/sponge/src/sponge_pkgd/main.cc:2191-2231 | what is declared is the base and the non-empty service names of the sandbox's installed packages |
| PkgBake.ReadNames | repos/sponge/src/sponge_pkgd/main.cc:3080-3102 | the loop over the array equals the recursive reading |
| PkgBake.SeedRootsFromBake | repos/sponge/src/sponge_pkgd/main.cc:3049-3112 | a daemon with roots keeps them; one without takes those the manifest lists |
| PkgBake.SeedExact | repos/sponge/src/sponge_pkgd/main.cc:3049-3112 | reading inverts printing: for any white space, any surrounding text without an earlier key, and any names without quotes, the roots are the listed non-empty names, cut to 63 characters, the first 32 of them |
| PkgBake.ListedAll | repos/sponge/src/sponge_pkgd/main.cc:3084-3097 | names that fit their buffer come back unchanged |
| PkgStore.SaveStore | repos/sponge/src/sponge_pkgd/main.cc:2944-2973 | the bounded appends write the printing of the sorted roots, cut only where the buffer ends |
| PkgStore.StoreFits | repos/sponge/src/sponge_pkgd/main.cc:2963-2973 | a full table of storable names always fits: at most 2545 of 4096 bytes |
| PkgStore.LoadStore | repos/sponge/src/sponge_pkgd/main.cc:2899-2921 | the loading loop equals the recursive reading; a malformed, empty or oversized store gives no roots |
| PkgStore.LoadExact | repos/sponge/src/sponge_pkgd/main.cc:2899-2973 | loading a printed store gives the names in the order printed |
| PkgStoreTexts.StoredExact | repos/sponge/src/sponge_pkgd/main.cc:2899-2921 | every text that starts with a printed store and fits the buffer gives the names printed, the first 32 that are not empty, cut to 63 characters; no other text gives a root |
| PkgStoreTexts.StoreLayout | repos/sponge/src/sponge_pkgd/main.cc:2944-2973 | the layout of the store, version included |
| PkgStore.SortedUnique | repos/sponge/src/sponge_pkgd/main.cc:2949-2961 | an ascending list, duplicates included, is determined by how often each name occurs |
| PkgStore.SecondSave | repos/sponge/src/sponge_pkgd/main.cc:2935-2973 | loading a saved store gives the sorted roots, and saving them again writes the same bytes |
| PkgStore.Reboot | repos/sponge/src/sponge_pkgd/main.cc:3040-3047 | after a reboot the installed names are the former ones if and only if some root was stored or the manifest seeds nothing resolvable; what runs is exactly the installed autostart packages |
| EditDistance.Levenshtein | repos/sponge/src/sponge_configd/main.cc:947-968 | the loop over two rows of 128 numbers computes the recursive edit distance whenever the candidate fits the rows |
| EditDistance.DistanceExact | repos/sponge/src/sponge_configd/main.cc:935-944 | the distance is the cost of a cheapest script of single-character edits: one costs that much, none costs less |
| EditDistance.DistanceZero | repos/sponge/src/sponge_configd/main.cc:935-944 | only the key itself is at distance zero |
| EditDistance.SuggestSimilar | repos/sponge/src/sponge_configd/main.cc:970-987 | the suggestion is the first nearest of the flat and then the instantiated keys, and empty exactly when no key is within distance 3 |
| ConfigValues.UintInRange | repos/sponge/src/sponge_configd/main.cc:1012-1043 | the 32-bit digit loop accepts exactly the non-empty digit strings whose mathematical value lies in the range |
| ConfigValues.ParsePanelHeight | repos/sponge/src/sponge-de/config/config_controller.cc:209-219 | the panel reads digits modulo 2^32, anything else as 0 |
| ConfigValues.HeightAgrees | repos/sponge/src/sponge-de/config/config_controller.cc:201-219 | every accepted value is read by the panel as the number it denotes, and every number in the range has an accepted spelling that is read back |
| ConfigValues.ListValid | repos/sponge/src/sponge_configd/main.cc:1125-1230 | the loops over commas and trimmed tokens decide the specified test, for identifier lists and for lists of a closed set of names |
| ConfigValues.ListExact | repos/sponge/src/sponge_configd/main.cc:1119-1230 | a value is accepted exactly when it is a printing of a non-empty list of good tokens with any padding around them |
| ConfigValues.ListingOk | repos/sponge/src/sponge_configd/main.cc:1125-1161 | splitting and trimming give back the printed tokens |
| ConfigValues.CleanRules | repos/sponge/src/sponge_configd/main.cc:506-511 | panel identifiers and widget names are free of commas and padding |
| PanelKeys.PatternShapeMatch | repos/sponge/src/sponge_configd/main.cc:540-559 | true exactly when some template's prefix and suffix fit the key |
| PanelKeys.PatternExtractId | repos/sponge/src/sponge_configd/main.cc:562-586 | the id extracted is the one id whose panel key this is, and there is none for any other key, the 64-bit wrap-around of overlapping prefix and suffix included |
| PanelKeys.ParsePanelIdKey | repos/sponge/src/sponge-de/config/config_controller.cc:138-199 | the panel splits exactly the keys of an id of 1 to 16 characters and a known property, and into these |
| PanelKeys.SidesAgree | repos/sponge/src/sponge-de/config/config_controller.cc:113-137 | the daemon takes a key for panel `id` if and only if the panel splits it into that id and the id keeps to the character set; a key splits in one way only |
| ConfigStore.ValueValid | repos/sponge/src/sponge_configd/main.cc:991-1241 | the validator decides the specified validity for every kind of key |
| ConfigDaemon.Main.InstantiatePattern | repos/sponge/src/sponge_configd/main.cc:641-732 | the slot, or the reason for none, and the new table are those specified; an existing entry is reused |
| ConfigDaemon.Main.ApplyValidatedValue | repos/sponge/src/sponge_configd/main.cc:1283-1320 | the baked path equals its specification |
| ConfigDaemon.Main.DoSet | repos/sponge/src/sponge_configd/main.cc:1466-1554 | the method treats a request as the specification does; what that achieves is `ResetExact`, `MetaExact`, `AnswerExact` and `SetExact` |
| ConfigDaemon.Main.DoGet | repos/sponge/src/sponge_configd/main.cc:1446-1463 | the flat table first, then the instantiated one |
| ConfigDaemon.SetInv | repos/sponge/src/sponge_configd/main.cc:1466-1554 | every request keeps: a flat value is initial or valid, and each panel entry is that of a panel key, once, in its template's kind, without a value or with a valid one |
| ConfigTheorems.ApplyExact | repos/sponge/src/sponge_configd/main.cc:1283-1320 | the baked path stores a value exactly when the key has a place and the value is valid, and touches no other key |
| ConfigTheorems.PathsAgree | repos/sponge/src/sponge_configd/main.cc:1394-1398 | a request does what the baked path does wherever no index is mistaken |
| ConfigTheorems.MisroutedExact | repos/sponge/src/sponge_configd/main.cc:1525-1538 | where a flat key's index is below the number of panel keys, the value goes to that panel key or nowhere, and the flat key keeps its own |
| ConfigTheorems.SetExact | repos/sponge/src/sponge_configd/main.cc:1466-1554 | a request makes its key hold the value if and only if the key has a place, the value is valid and the index is not mistaken (or the empty value is refused to a new panel key) |
| ConfigRegistry.RegistryValid | repos/sponge/src/sponge_configd/main.cc:411-473 | the fourteen keys are distinct, none of them is a panel key, and their ranges are 32-bit: all results about registries hold of them |
| ConfigRegistry.ColourRefused | repos/sponge/src/sponge_configd/main.cc:1525-1535 | in the store that one write of a panel height leads to from the initial one, a valid background colour is refused |
| ConfigTheorems.RefusedExact | repos/sponge/src/sponge_configd/main.cc:1466-1535 | a request not carried out leaves the store alone, except exactly when a new panel key is given an invalid value: its entry stays, without a value |
| ConfigTheorems.PanelReads | repos/sponge/src/sponge-de/config/config_controller.cc:113-219 | after every history of requests the panel can take apart every panel entry, and reads a written height as the number it denotes, between 16 and 128 |
| ConfigDefaults.ResetExact | repos/sponge/src/sponge_configd/main.cc:1466-1478 | writing `no` to `bake.applied` is done, and every key then holds the value of the last baked line that gives it a valid one, otherwise what it held before; a panel key that is mentioned is there afterwards, unless the table holds 32 |
| ConfigDefaults.FlatReset | repos/sponge/src/sponge_configd/main.cc:1466-1478 | so every flat key takes the last valid line, or keeps its value |
| ConfigDefaults.MetaExact | repos/sponge/src/sponge_configd/main.cc:1466-1486 | a request is answered read-only exactly when it writes one of the three keys of the bake and is no reset, and with missing defaults exactly when it is a reset without them; both change nothing |
| ConfigDefaults.AnswerExact | repos/sponge/src/sponge_configd/main.cc:1488-1554 | the answer to every other request: the validity of the value for the entry addressed, or the first of unknown key, bad id and full table that applies |
| ConfigDefaults.PanelKinds | repos/sponge/src/sponge_configd/main.cc:484-494 | the three panel properties have the rules of their own templates |
| ConfigDefaults.PanelValues | repos/sponge/src/sponge-de/config/config_controller.cc:113-219 | after every history of requests each panel entry splits into an id and a property, and holds a height from 16 to 128, one of the four positions, a padded list of the three widgets, or nothing yet |
| ConfigDefaults.ValueMeaning | repos/sponge/src/sponge_configd/main.cc:1044-1110 | the rules of colours and formats, character by character |
| Notifier.Main.AcceptOne | repos/sponge/src/sponge_notifier/main.cc:312-362 | the queue after a post: the oldest entry gone if it was full, the new one at the end with its clamped lifetime; no change without a title |
| Notifier.Main.DropFirst | repos/sponge/src/sponge_notifier/main.cc:365-377 | the shifting loop removes the first entry and keeps the rest in order |
| Notifier.Main.Compact | repos/sponge/src/sponge_notifier/main.cc:395-404 | in-place compaction keeps exactly the live entries, in order |
| Notifier.Main.HandleExpiry | repos/sponge/src/sponge_notifier/main.cc:382-408 | a sweep keeps the live entries and says whether anything changed |
| Notifier.Main.HandleConfig | repos/sponge/src/sponge_notifier/main.cc:259-294 | the settings in order, each clamped, the last one of a kind deciding |
| Notifier.LiveExact | repos/sponge/src/sponge_notifier/main.cc:395-404 | a sweep keeps exactly the entries that are not due, in increasing order of their ids |
| Notifier.OrderUnique | repos/sponge/src/sponge_notifier/main.cc:351-361 | members and increasing ids leave one order only |
| Notifier.AfterInv | repos/sponge/src/sponge_notifier/main.cc:242-408 | after every run of posts, sweeps and configurations there are at most 32 entries, ids strictly increasing, each with title, source and a lifetime within bounds |
| Notifier.Burst | repos/sponge/src/sponge_notifier/main.cc:345-361 | after any burst of posts the queue is the newest entries: as many as may be live, or as there were if a configuration had left more; a burst never brings such a queue back within its limit |
| Notifier.LimitKept | repos/sponge/src/sponge_notifier/main.cc:259-294 | a queue within its limit stays within it, except exactly when a configuration sets the limit below the number of entries |
| Notifier.OverLimit | repos/sponge/src/sponge_notifier/main.cc:270-275 | a concrete run that ends with two entries at a limit of one |
| Notifier.LifetimeExact | repos/sponge/src/sponge_notifier/main.cc:230-237 | every sweep at or after the post plus the lifetime removes the new entry; every earlier sweep from the post on keeps it if and only if it was posted at clock zero |
| Notifier.FirstLost | repos/sponge/src/sponge_notifier/main.cc:230-237 | the first notification of a daemon that has been up for longer than the lifetime is gone with the first sweep |
| NotifierEntries.PostExact | repos/sponge/src/sponge_notifier/main.cc:312-362 | a post with a title adds an entry that says exactly what was asked, with the lifetime asked for, cut at thirty seconds, or the default; the oldest goes only when the limit is reached |
| NotifierEntries.ConfigureExact | repos/sponge/src/sponge_notifier/main.cc:259-294 | the last limit and the last lifetime of a configuration decide, clamped, zero standing for 8 and 5000; the entries stay |
| NotifierEntries.AskedLifetime | repos/sponge/src/sponge_notifier/main.cc:195-237 | from configuration and request to the sweep: the entry is kept exactly while the sweep's clock is below its time stamp plus the lifetime asked for |

## Left out

- PkgGroups.LaunchConflict: assumes that no indexed package has the empty name, because the empty name stands for "no peer" in the source; `LaunchExclusive`, `HistoryExclusive` and `PkgDispatch.LaunchServed` share the assumption.
- PkgDispatch.InstallServed: speaks of daemons whose roots are distinct and indexed, as does `RemoveServed`; every request keeps them so (`HistoryRootsOk`), and what happens with other roots is `InstallTakesEffect` and `RemoveTakesEffect`.
- PkgGroups.HistoryExclusive: speaks of repositories where no autostart package claims a group, because an installation is not checked; `InstallExclusive` says exactly when one installation keeps the rule.
- PkgMain.Main.DoInstall: the verdict of the admission loop is a parameter, because it rests on the resource report and on decisions that ignore the decremented figures; the order of the checks and that a refusal changes nothing are modelled.
- PkgMain.Main.DoLaunch: the staged-binary list and the admission verdict are parameters, for the same reason.
- PkgMain.Main.HandleRequest: the content of a replayed answer is not modelled, because it is put together from cached report texts; that a repeated request changes nothing is.
- PkgStore.LoadStore: accepts the layout that is written and no other, because the framework's XML parser is not part of this model.
- PkgStoreTexts.StoredExact: says so of every text, and leaves out other spellings of the same XML, for the same reason.
- ConfigStore.ValueValid: the line grammar of shortcuts is an arbitrary set of accepted values, because it rests on the framework's key names.
- AttrText.AttrExact: attribute values in single quotes, and white space other than blanks after a separator, are not spellings of a value here; the scan takes them for part of a bare value.
- XmlText.ExtractExact: comments and processing instructions with a `<` inside that starts a tag, and CDATA sections with one, are not printed documents here.
- PkgRequests.SignatureExact: fields are of any length; what holds for fields that fit the 31, 127 and 15 characters they are read into is `SignatureReadable`, for the known operations.
- ConfigTheorems.PathsAgree: the converse is `MisroutedExact`, which says where the value goes instead.
- Genode sessions, signals, threads, the file system with its retries, and the order of the bootstrap thread: reports, requests, ticks and clock readings are values. A report session takes what fits its buffer and refuses the rest.
- XML and HID parsing by the framework: state reports, package metadata and requests are given as values; metadata text is not parsed, nor is the package index.
- Running without a root store: the store is always there.
- Names longer than 63 characters and the truncation of other fixed strings, except in the bake manifest, the store and the request signature, where it is modelled.
- Admission arithmetic. The installation reads the report again for each package and ignores its own decremented figure, so nothing is claimed about sums of quotas.
- Texts of error messages, the explain, list and installed reports, and the text of replayed answers. The replay of an installation can answer with a conflict, because the group check stands there; it changes no state.
- The package reported with a successful installation is read from a plan slot that the re-derivation may have overwritten; only the names added are modelled.
- The layout of the generated configurations apart from their start nodes and parent-provides lists, the padding knobs and the rewriting of binary prefixes.
- The start nodes hold what the metadata says; that the same metadata text gives the same bytes is up to the framework's generator.
- The idle log of the supervisor and its log lines.
- The parsing of the baked default lines and the configuration daemon's store: the lines are given as pairs of key and value, and the unvalidated loading of stored values is not modelled.
- The results about the configuration store hold for any registry of distinct names none of which is a panel key; the fourteen keys are one.
- Whether an element that is present but empty counts as missing in a notification depends on the framework's string type; an empty text is taken as missing.
- The wrap-around of 64-bit clocks and notification ids.
- Widgets, painting, dialogs, the fault console, the terminal tools, the log daemon and the run scripts.
