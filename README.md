# pw:install — a Dafny model of RockShell's ProcessWire installer command

RockShell's `pw:install` command drives ProcessWire's web installer from the
console. A browser fetches `install.php`. `nextStep` then reads the page's
`h1` and `h2` headings to decide which installer screen is showing and runs
that screen's handler. The handlers are welcome, compatibility, profile,
database, admin and finish. The handler fills in and submits the page's
form, and `nextStep` calls itself for the next page. Every value a form
field receives goes through one precedence rule, `getLazyValue`: a CLI
option wins, then in `--lazy` mode the built-in `lazyDefaults` table, then
the caller's fallback. Without `--lazy`, the operator is prompted.

The model has these modules:

- `Values` — the PHP values the command handles: truthiness and the cast to string.
- `Strings` — `trim`, `strtolower`, `strpos`, splitting, joining and decimal digits.
- `Cascade` — `getLazyValue` and the `lazyDefaults` table.
- `Urls` — `normalizeUrl`, the candidate URLs host() probes, and the probe loop.
- `HttpHosts` — `cleanHttpHostsArray`, as a pair of loops specified by a fold.
- `Steps` — the heading table of `getStep`.
- `Timezones` — the timezone labels, the lookups fillForm makes on them, and `findTimezone`.
- `Console` — the operator, as a finite script of answers. Enter takes the offered default; any other line is typed text. A script that runs out leaves the prompt unanswered.
- `FormFill` — `fillForm`. It is a fold over the form's fields, with one rule per special field. It is proved equal to an imperative loop that has one method per branch.
- `Installer` — the command object. It is a `class` with the fields `host`, `skipWelcome`, `skipNextConfirm` and `stepCount`. The browser is a server function: it maps the history of what the command did to the page the crawler sees next. `nextStep` and the step handlers are mutually recursive methods, as in the source. The ceiling of 50 calls makes the recursion terminate. The ghost field `handled` records the steps run, and the ghost field `calls` records every nextStep call in order, with its reload and noConfirm arguments and the answers, skipNextConfirm and files it starts from.

`cleanHttpHostsArray` does not do what its own comments say. The comment at
App/Commands/PwInstaller.php:368 says that a bare host overrides a port
version seen earlier. The one at :374 says that port-specific hosts are added
only when their bare host was not added. In the code, a bare host only writes
'add' under its own key, so an earlier `a:443` keeps its 'skip' mark. The
second loop then appends it after the bare hosts, and `["a:443", "a"]`
becomes `["a", "a:443"]`. `a:443` is dropped only when `a` comes before it.
The model follows the code: `HttpHosts.PortBeforeBareKeepsBoth` and
`HttpHosts.DefaultPortEntryKept` state that behaviour, the latter for an
entry whose bare part is not itself of the form host:443 or host:80 (such
as `a:80:443`, whose bare part `a:80` may never enter `$seen`).

## Model

| member | source | states |
|---|---|---|
| Cascade.LazyValue | App/Commands/PwInstaller.php:305-319 | A given CLI option (neither null nor false) wins. Otherwise, in lazy mode, a key present in the table gives the table's value. Otherwise the fallback is returned. |
| Cascade.InteractiveIgnoresTable | App/Commands/PwInstaller.php:314-316 | Outside lazy mode the result does not depend on the lazyDefaults table. |
| Cascade.ValueComesFromASource | App/Commands/PwInstaller.php:305-319 | The result is always the CLI option, a table entry or the fallback. |
| Cascade.LazyValueAbsorbs | App/Commands/PwInstaller.php:471-472 | Passing the result back in as the fallback gives the same result, so the second lookup of the userpass handler changes nothing. |
| Urls.NormalizeUrl | App/Commands/PwInstaller.php:324-327 | A URL that parse_url rejects, or that lacks a scheme or a host, comes back unchanged. |
| Urls.DefaultPortDropped | App/Commands/PwInstaller.php:334-341 | https with port 443 and http with port 80 lose the port: scheme://host + path. |
| Urls.OtherPortKept | App/Commands/PwInstaller.php:334-339 | Any other non-zero port is kept as decimal digits: scheme://host:port + path. |
| Urls.ExplicitDefaultPortIsCanonical | App/Commands/PwInstaller.php:334-341 | A URL spelling out its scheme's default port and the same URL without a port normalise to the same string. |
| Urls.DefaultHost | App/Commands/PwInstaller.php:600 | The offered host is DDEV_PROJECT + ".ddev.site" when that variable is truthy, else example.com. |
| Urls.SplitHostPort | App/Commands/PwInstaller.php:618 | When the host has no port, its name is its whole text. A port is the decimal value of the digits after a colon, and the name is the text before that colon. |
| Urls.LastColon | App/Commands/PwInstaller.php:618 | The result is the last colon before the given position; None when there is none. |
| Urls.SplitHostPortFindsPort | App/Commands/PwInstaller.php:618 | No port is missed: whenever a colon is followed by nothing but digits, those digits are the port and the text before the colon is the name. |
| Urls.CandidateText | App/Commands/PwInstaller.php:621-626 | Each candidate reads scheme://name. It is followed by :port unless the port is absent, 0 or the scheme's default. |
| Urls.CandidateUrls | App/Commands/PwInstaller.php:617-627 | A host with a port yields exactly two candidates: https then http, each on that port. A host without one yields one candidate per set DDEV router port, https on DDEV_ROUTER_HTTPS_PORT first and http on DDEV_ROUTER_HTTP_PORT last. |
| Urls.FirstReachableOf | App/Commands/PwInstaller.php:628-640 | The result is the first candidate whose status is 200 or 403, with every earlier candidate unreachable. It is None exactly when no candidate is reachable. |
| Urls.FirstReachable | App/Commands/PwInstaller.php:628-640 | The probe loop, which returns at the first 200 or 403, computes FirstReachableOf. |
| Urls.LTrimSlash | App/Commands/PwInstaller.php:601 | The result is the site path with its leading slashes removed: a suffix that does not start with "/", preceded only by "/" characters. |
| Values.TrimAndFilter | App/Commands/PwInstaller.php:352-353 | Every entry kept is trimmed and truthy, and there are no more entries than in the input. |
| Values.TrimAndFilterKeeps | App/Commands/PwInstaller.php:352-353 | Every entry whose trimmed form is truthy is kept, in that trimmed form. |
| Values.TrimAndFilterAppend | App/Commands/PwInstaller.php:352-353 | The filter keeps the input's order: filtering a concatenation concatenates the filtered parts. |
| Values.TrimAndFilterOne | App/Commands/PwInstaller.php:352-353 | A single entry is kept, trimmed, exactly when its trimmed form is truthy. |
| Values.TrimAndFilterOfClean | App/Commands/PwInstaller.php:352-353 | Entries that are already trimmed and truthy pass through unchanged. |
| Values.TrimAndFilterFrom | App/Commands/PwInstaller.php:352-353 | Every entry kept is the trimmed form of an input entry. |
| Strings.SplitJoin | App/Commands/PwInstaller.php:457-459 | Splitting the implode of delimiter-free pieces at the delimiter gives the pieces back. |
| Strings.TrimIdempotent | App/Commands/PwInstaller.php:352 | trim applied twice equals trim applied once. |
| Strings.StrLen | App/Commands/PwInstaller.php:478 | strlen() counts UTF-8 bytes: at least one and at most four per character, and exactly one per character only for ASCII text. |
| Strings.UmlautsAreTwoBytesEach | App/Commands/PwInstaller.php:478 | strlen("äöüä") is 8, while the string has 4 characters. |
| HttpHosts.Entries | App/Commands/PwInstaller.php:349-353 | The entries walked are all trimmed and truthy. |
| HttpHosts.StringEntriesHaveNoDelims | App/Commands/PwInstaller.php:349-351 | Entries split out of a string contain no white space or comma. |
| HttpHosts.Bare | App/Commands/PwInstaller.php:360-361 | The capture group is a non-empty host h with h:443 or h:80 equal to the entry. |
| HttpHosts.CleanHttpHostsArray | App/Commands/PwInstaller.php:347-380 | The method, with its two loops, returns the Cleaned fold of the input. |
| HttpHosts.ScanEntries | App/Commands/PwInstaller.php:358-372 | The first foreach leaves seen's keys, seen and cleaned as the Scan fold gives them. |
| HttpHosts.AppendSkipped | App/Commands/PwInstaller.php:375-377 | The second foreach appends the keys marked skip, in insertion order. |
| HttpHosts.Unique | App/Commands/PwInstaller.php:379 | array_unique keeps exactly the input's values, each once. |
| HttpHosts.FirstIndex | App/Commands/PwInstaller.php:379 | The result is the position of the first occurrence of the value. |
| HttpHosts.FirstIndexOfPrefix | App/Commands/PwInstaller.php:379 | Appending to a list does not move the first occurrence of a value already in it. |
| HttpHosts.UniqueInFirstOccurrenceOrder | App/Commands/PwInstaller.php:379 | array_unique keeps the first occurrence of each value: the values kept come in the order of their first occurrences. |
| HttpHosts.ScanKeys | App/Commands/PwInstaller.php:358-372 | seen lists each key once, and skip marks exactly the default-port entries. |
| HttpHosts.ScanCleaned | App/Commands/PwInstaller.php:369-371 | After the first loop, cleaned holds exactly the entries that are not host:443 or host:80, in order. |
| HttpHosts.ScanSeenBare | App/Commands/PwInstaller.php:370 | A bare host is in seen exactly when it is an entry. |
| HttpHosts.ScanSeenPort | App/Commands/PwInstaller.php:360-366 | A default-port entry is in seen exactly when, at one of its occurrences, its bare host was not yet in seen. |
| HttpHosts.CleanedAreEntries | App/Commands/PwInstaller.php:347-380 | Every host in the result is a trimmed, truthy entry of the input. |
| HttpHosts.CleanedShape | App/Commands/PwInstaller.php:369-379 | The result has no duplicate. The distinct bare hosts come first, in first-seen order. Every later host is a default-port entry. |
| HttpHosts.BareHostsKept | App/Commands/PwInstaller.php:369-371 | Every bare host of the input is in the result. |
| HttpHosts.DefaultPortEntryKept | App/Commands/PwInstaller.php:360-377 | For an entry whose bare part is not itself of the form host:443 or host:80, a default-port entry is kept exactly when its bare host does not occur before the entry's first occurrence. |
| HttpHosts.EntriesOfCleanList | App/Commands/PwInstaller.php:352-353 | A list of trimmed, truthy hosts is walked as it is. |
| HttpHosts.PortBeforeBareKeepsBoth | App/Commands/PwInstaller.php:360-379 | ["a:443", "a"] gives ["a", "a:443"]. |
| HttpHosts.BareBeforePortKeepsBare | App/Commands/PwInstaller.php:360-379 | ["a", "a:443"] gives ["a"]. |
| HttpHosts.LonePortEntryKept | App/Commands/PwInstaller.php:360-379 | ["a:443"] gives ["a:443"]. |
| HttpHosts.RepeatedHostOnce | App/Commands/PwInstaller.php:369-379 | ["b", "b", "c"] gives ["b", "c"]. |
| Steps.HeadingTable | App/Commands/PwInstaller.php:587-593 | "Welcome." is matched as a prefix. The other five headings are matched exactly, each to its own step. |
| Steps.Reverse | App/Commands/PwInstaller.php:582-585 | The reversed list is position by position the mirrored input. |
| Steps.FirstMatch | App/Commands/PwInstaller.php:586-594 | The result is the table entry of the first heading that has one. It is None exactly when no heading has one. |
| Steps.LastMatchDecides | App/Commands/PwInstaller.php:581-595 | getStep returns step s exactly when some h2 maps to s and no later h2 (in document order) is in the table. |
| Steps.UnmatchedHeadingsReturned | App/Commands/PwInstaller.php:581-595 | The headings come back exactly when none is in the table, and they come back reversed and untrimmed. |
| Steps.StaleHeadingIgnored | App/Commands/PwInstaller.php:581-595 | A page with "Compatibility Check" above "Debug mode?" is the database step. |
| Timezones.PutIsUpdate | App/Commands/PwInstaller.php:416-417 | Writing $a[$k] behaves as an ordered map update: an existing key keeps its place, a new key goes last. |
| Timezones.RegionCityLabel | App/Commands/PwInstaller.php:411-416 | Region/City is labelled "City (Region)". Everything after the first "/" stays in the city part. |
| Timezones.PlainNameLabel | App/Commands/PwInstaller.php:411-416 | A name without "/" is its own label. |
| Timezones.KeyOfName | App/Commands/PwInstaller.php:422-429 | The result is the key of the first name equal to the default, compared lower-cased; None when no name matches. |
| Timezones.KeyOfLabel | App/Commands/PwInstaller.php:436-442 | array_search gives the key of the first label equal to the chosen text; None when no label is. |
| Timezones.ExactTestRedundant | App/Commands/PwInstaller.php:656-666 | findTimezone's equality test is subsumed by its containment test. |
| Timezones.FindTimezoneResult | App/Commands/PwInstaller.php:656-666 | A string whose integer cast is zero is lower-cased. If a label contains it, the result is the key of the first such label; otherwise the result is the lower-cased text. |
| Timezones.FindTimezone | App/Commands/PwInstaller.php:656-666 | A value that is not a string whose integer cast is zero is returned unchanged. Such a string gives its lower-cased text or the key of one of the options. |
| Timezones.FirstLabelMatch | App/Commands/PwInstaller.php:659-662 | A key found is the key of one of the options. |
| Timezones.EmptyTextPicksFirst | App/Commands/PwInstaller.php:656-666 | The empty string selects the first option. |
| Timezones.NumericTextPassesThrough | App/Commands/PwInstaller.php:658 | A numeric string such as "5" is returned without a lookup. |
| Console.Ask | App/Commands/PwInstaller.php:466 | A prompt consumes one answer: Enter gives the default, anything else the typed text. It has no answer exactly when the script is exhausted. |
| Console.ConfirmReply | App/Commands/PwInstaller.php:128 | Enter gives the default; a typed line means yes exactly when it starts with y or Y. |
| Console.ChoiceOf | App/Commands/PwInstaller.php:193-197 | A line selects a listed choice, and a line that spells a choice selects that choice. |
| Console.Choose | App/Commands/PwInstaller.php:193-197 | The result is always one of the choices and consumes at least one answer. A first line that validates (the typed text, or the default on Enter) is selected at once, taking exactly that answer. With no choices there is no result. |
| Console.ChooseTakesFirstValid | App/Commands/PwInstaller.php:193-197 | The choice is the one given by the first valid line, and every line before it was invalid, so the question was asked again for each of them. |
| Console.ChooseFailsOnlyOnInvalidLines | App/Commands/PwInstaller.php:193-197 | The question goes unanswered exactly when every line of the script is invalid. |
| Console.AcceptedDefaultChosen | App/Commands/PwInstaller.php:193-197 | Enter on a valid default selects it at once. |
| FormFill.InitialValues | App/Commands/PwInstaller.php:390-394 | Every field of the form has a value under its name. |
| FormFill.InitialValuesKeys | App/Commands/PwInstaller.php:390-394 | The keys of the initial values are exactly the field names of the form. |
| FormFill.InitialValueOf | App/Commands/PwInstaller.php:390-394 | With distinct names, each field starts with the value the form gives it. |
| FormFill.TimezoneRule | App/Commands/PwInstaller.php:430-444 | In lazy mode, a default naming an option selects that option's key without a prompt. Otherwise one answer is consumed; the result is the key of the first label equal to the answer (or the default on Enter), else '0'. It is missing exactly when no answer is left. |
| FormFill.LabelsNamesSameKeys | App/Commands/PwInstaller.php:408-418 | The label table and the name table have the same keys, in the same order. |
| FormFill.TimezoneValueIsOption | App/Commands/PwInstaller.php:430-444 | The timezone field receives the key of one of the select's options or '0' (UTC). |
| FormFill.HostsRule | App/Commands/PwInstaller.php:446-459 | In lazy mode the field receives the cleaned default, one host per line. Otherwise one answer is consumed and its text (the cleaned default on Enter) is split at newlines and commas, trimmed, filtered and joined by newlines. It is missing exactly when no answer is left. |
| FormFill.CleanPiecesSurvive | App/Commands/PwInstaller.php:457-459 | Trimmed, truthy pieces free of newlines and commas survive the implode, re-split and filter unchanged. |
| FormFill.HostLinesStable | App/Commands/PwInstaller.php:457-459 | Processing the field's lines a second time gives the same lines. |
| FormFill.LazyHostsAreCleaned | App/Commands/PwInstaller.php:446-459 | In lazy mode, a non-empty host string ends up as cleanHttpHostsArray leaves it, one host per line. |
| FormFill.CleanedStringPieces | App/Commands/PwInstaller.php:446-459 | Every host cleaned out of a string is trimmed, truthy and free of newlines and commas. |
| FormFill.AdminNameRule | App/Commands/PwInstaller.php:460-468 | In lazy mode the value is the truthy url option, else the default. Interactively one answer is consumed and the value is that answer, with the same default on Enter. |
| FormFill.PasswordPrompt | App/Commands/PwInstaller.php:471-482 | The do-while accepts only a password whose strlen() (its UTF-8 byte length) is at least 6. A long enough first answer is taken at once. A script of Enter presses on a short default never ends it. |
| FormFill.PasswordPromptTakesFirstLong | App/Commands/PwInstaller.php:471-482 | The password is the first answer whose strlen() is at least 6, and every earlier answer was shorter. |
| FormFill.PasswordPromptFailsOnlyOnShortAnswers | App/Commands/PwInstaller.php:471-482 | The prompt runs out exactly when every answer is shorter than 6 bytes. |
| FormFill.UmlautPasswordAccepted | App/Commands/PwInstaller.php:478-482 | "äöüä" is accepted: four characters, but eight bytes for strlen(). |
| FormFill.PasswordRule | App/Commands/PwInstaller.php:469-483 | In lazy mode the value is getLazyValue('userpass', default), whatever its length. Interactively the value is at least 6 bytes long, a long enough first answer is taken at once, and an empty script gives nothing. |
| FormFill.ConfirmPrompt | App/Commands/PwInstaller.php:488-494 | The confirmation loop ends only on the password itself; Enter ends it at once. |
| FormFill.ConfirmRule | App/Commands/PwInstaller.php:484-496 | userpass_confirm always receives $pass, without a prompt in lazy mode. |
| FormFill.SelectItems | App/Commands/PwInstaller.php:497-519 | In lazy mode every checkbox is selected. Interactively there is one confirmation per checkbox, only listed values are selected, and the answers left are those after the confirmations. |
| FormFill.SelectItemsSnoc | App/Commands/PwInstaller.php:508-515 | One more checkbox takes the next answer and is appended to the selection exactly when that answer confirms. |
| FormFill.SelectItemsOne | App/Commands/PwInstaller.php:508-515 | A single checkbox is selected exactly when its answer confirms, and that answer is consumed. |
| FormFill.SelectItemsSplit | App/Commands/PwInstaller.php:508-515 | The selection keeps the checkboxes' order: selecting from a concatenation selects from the first part, then from the second part with the answers left. |
| FormFill.AcceptingSelectsAll | App/Commands/PwInstaller.php:508-515 | Answering every confirmation with Enter selects every checkbox. |
| FormFill.DbTablesActionRule | App/Commands/PwInstaller.php:520-529 | The value is "remove" under --remove, else "ignore" under --ignore, else the lazy default. An interactive choice is remove or ignore. |
| FormFill.GenericRule | App/Commands/PwInstaller.php:530-545 | In lazy mode the value is the default; otherwise it is the operator's answer, with the default on Enter. |
| FormFill.FieldRule | App/Commands/PwInstaller.php:400-545 | In lazy mode, every field except timezone is settled without consuming an answer. |
| FormFill.FillStep | App/Commands/PwInstaller.php:394-548 | After dbTablesAction a turn changes nothing. Otherwise it sets only its own field, to the rule's value, sets skipAll on dbTablesAction, and records $pass after userpass. |
| FormFill.FillPrefix | App/Commands/PwInstaller.php:394-549 | However far the loop has run, every field still has a value. |
| FormFill.PrefixFailureSticks | App/Commands/PwInstaller.php:394-549 | Once the operator runs out, the rest of the loop fails too. |
| FormFill.SkipAllFact | App/Commands/PwInstaller.php:393-395 | $skipAll is set exactly once dbTablesAction has been passed. |
| FormFill.PassFact | App/Commands/PwInstaller.php:391-395 | $pass is the settled userpass once a handled userpass field has passed, and '' before. |
| FormFill.ValueFrame | App/Commands/PwInstaller.php:548 | Once a field is settled, later turns leave its value alone. |
| FormFill.UntouchedBeforeTurn | App/Commands/PwInstaller.php:548 | Before its own turn a field keeps the form's value. |
| FormFill.SettledByRule | App/Commands/PwInstaller.php:394-548 | A handled field ends with what its rule gives on the state reached before its turn. |
| FormFill.FrozenField | App/Commands/PwInstaller.php:395 | A field that is not reached keeps the form's value. |
| FormFill.FrozenAfterDbTablesAction | App/Commands/PwInstaller.php:393-395 | Every field after dbTablesAction keeps the value the form already had. |
| FormFill.KeysStable | App/Commands/PwInstaller.php:548 | The loop never adds or removes a key. |
| FormFill.FillKeepsKeys | App/Commands/PwInstaller.php:385-551 | The filled form has exactly the form's own field names as keys. |
| FormFill.ConfirmEchoesPassword | App/Commands/PwInstaller.php:484-496 | userpass_confirm receives the password settled for an earlier userpass, and '' when none came first. |
| FormFill.InteractivePasswordLong | App/Commands/PwInstaller.php:469-483 | Interactively the submitted password is at least 6 bytes long, as strlen() measures it. |
| FormFill.LazyPasswordUnchecked | App/Commands/PwInstaller.php:469-483 | In lazy mode the password is the field's default as it is. |
| FormFill.RemoveFlagWins | App/Commands/PwInstaller.php:521 | --remove decides dbTablesAction, lazily or not. |
| FormFill.DispatchDbTablesAction | App/Commands/PwInstaller.php:520 | The dbTablesAction field is settled by its own rule. |
| FormFill.LazyPrefixNeedsNoOperator | App/Commands/PwInstaller.php:394-548 | In lazy mode, on a form without a timezone field, no prefix of the loop consumes an answer. |
| FormFill.LazyFillNeedsNoOperator | App/Commands/PwInstaller.php:385-551 | A lazy fill of a form without a timezone field succeeds and asks the operator nothing. |
| FormFill.TimezoneOptions | App/Commands/PwInstaller.php:408-418 | The each() over the options builds the label table and the name table. |
| FormFill.FindKeyOfName | App/Commands/PwInstaller.php:422-429 | The foreach with break finds KeyOfName. |
| FormFill.TimezoneField | App/Commands/PwInstaller.php:405-445 | The timezone branch computes TimezoneRule. |
| FormFill.PasswordField | App/Commands/PwInstaller.php:469-483 | The userpass do-while computes PasswordRule. |
| FormFill.ConfirmField | App/Commands/PwInstaller.php:484-496 | The userpass_confirm do-while computes ConfirmRule. |
| FormFill.RemoveItemsField | App/Commands/PwInstaller.php:497-519 | The foreach over the checkboxes computes SelectItems. |
| FormFill.HostsField | App/Commands/PwInstaller.php:446-459 | The httpHosts branch computes HostsRule. |
| FormFill.FillField | App/Commands/PwInstaller.php:405-545 | The if/elseif chain computes FieldRule. |
| FormFill.FillTurn | App/Commands/PwInstaller.php:395-548 | One turn of the foreach computes FillStep. |
| FormFill.FillForm | App/Commands/PwInstaller.php:385-551 | No form is an error. Otherwise the loop's result equals FillSpec, the fold of FillStep over the fields. |
| Installer.HostUrl | App/Commands/PwInstaller.php:617-640 | The URL is the first reachable candidate, with every earlier candidate unreachable, followed by "/" and the site path. It is None exactly when no candidate is reachable. |
| Installer.FirstReachableSite | App/Commands/PwInstaller.php:628-640 | The result is the first reachable URL of the list, followed by "/" and the site path, with every earlier URL unreachable. It is None exactly when none is reachable. |
| Installer.ChosenHost | App/Commands/PwInstaller.php:602-611 | A truthy cached host is used without consulting anything else. Otherwise a truthy --host option is used as it is; then, lazily, getLazyValue('host', $defaulthost); then the answer to "Enter host", Enter giving $defaulthost. There is no host exactly when nothing is cached, no --host option is given, the mode is interactive and the answers are exhausted. At most one answer is consumed, and only by the prompt. |
| Installer.DownloadChoice | App/Commands/PwInstaller.php:565-573 | Lazily no answer is consumed, there is a download exactly when download_processwire is truthy, and its version is getLazyValue('processwire_version', 'dev'). Interactively a refused confirmation declines the download and consumes one answer; an accepted one followed by a valid version line downloads that branch and consumes both. An accepted confirmation without an answer left for the version prompt finds nothing. |
| Installer.EnterTakesDefaultHost | App/Commands/PwInstaller.php:608-610 | Interactively, Enter takes the DDEV or example.com default. |
| Installer.PortlessHostNeedsRouterPorts | App/Commands/PwInstaller.php:618-620 | A host without a port and no DDEV router ports is never reachable. |
| Installer.InteractiveVersionIsBranch | App/Commands/PwInstaller.php:566-573 | An interactive download is of master or dev and takes at least one answer. |
| Installer.LazyDownloadsDev | App/Commands/PwInstaller.php:566-573 | With the built-in table and no options, lazy mode downloads dev without a prompt. |
| Installer.LazyFetchesOnlyWhenTold | App/Commands/PwInstaller.php:143-144 | With the built-in table and no download_rockfrontend option, lazy mode does not fetch RockFrontend: the table's false overrides the fallback true. |
| Installer.FilterTruthy | App/Commands/PwInstaller.php:164 | The kept profiles are exactly the truthy ones, and no more than the input's. |
| Installer.FilterTruthyAppend | App/Commands/PwInstaller.php:164 | array_filter keeps the order: filtering a concatenation concatenates the filtered parts. |
| Installer.FilterTruthyOfFalsy | App/Commands/PwInstaller.php:164 | A list of falsy profiles filters to the empty list. |
| Installer.FirstKeptIsFirstTruthy | App/Commands/PwInstaller.php:164-166 | The first profile kept, the one lazy mode falls back to, is the first truthy profile of the page. |
| Installer.FirstFrom | App/Commands/PwInstaller.php:177-192 | The result is the first index holding the key, or None when no index does. |
| Installer.FirstNorm | App/Commands/PwInstaller.php:177-192 | The result is the first profile equal to the wanted one after trim(strtolower()), or None when none is. |
| Installer.DefaultIndex | App/Commands/PwInstaller.php:185-192 | $defaultIndex is always a valid index. |
| Installer.CliProfileSelectsListed | App/Commands/PwInstaller.php:174-192 | A CLI profile differing only in case or surrounding space selects the first matching listed entry. |
| Installer.TableProfileSelected | App/Commands/PwInstaller.php:176-192 | Without a CLI profile, the first profile matching the table's profile is the default. |
| Installer.UnlistedCliProfileFallsBack | App/Commands/PwInstaller.php:174-192 | An unlisted CLI profile leaves index 0 as the default. |
| Installer.FindProfile | App/Commands/PwInstaller.php:177-192 | The foreach with break finds FirstNorm. |
| Installer.ProfileDefaultIndex | App/Commands/PwInstaller.php:170-192 | The two searches compute DefaultIndex. |
| Installer.InteractivePickIsListed | App/Commands/PwInstaller.php:164-197 | The operator can install only a listed, truthy profile. |
| Installer.EnterPicksDefaultProfile | App/Commands/PwInstaller.php:185-197 | Enter at the profile prompt installs the profile at $defaultIndex. |
| Installer.ProfilePick | App/Commands/PwInstaller.php:157-197 | A page without options halts with NoProfiles, and so does one whose options are all falsy outside lazy mode. Lazily a page with options takes no answer and installs getLazyValue('profile', $profiles[0]), with $profiles[0] the first truthy option (null when there is none). Any other halt is an operator who ran out, which only happens interactively. |
| Installer.FetchProfileChoice | App/Commands/PwInstaller.php:141-151 | With the site-rockfrontend directory present nothing is fetched and no answer is taken. Lazily download_rockfrontend decides. Interactively the answer to "Download RockFrontend Site Profile?" decides, Enter meaning yes, and an empty script gives nothing. |
| Installer.SelectProfile | App/Commands/PwInstaller.php:157-197 | The imperative pick of the profile computes ProfilePick. |
| Installer.DefaultProfile | App/Commands/PwInstaller.php:170-183 | A given CLI profile is the default. Otherwise it is the first profile that matches the table's profile after trim(strtolower()), and failing that $profiles[0]. |
| Installer.NoMatchDefaultsToFirst | App/Commands/PwInstaller.php:170-192 | With no CLI profile and no profile matching the table, $defaultIndex stays 0. |
| Installer.ErrorRows | App/Commands/PwInstaller.php:209-219 | The rows counted are exactly those where strpos of fa-check is false or 0. |
| Installer.CountErrors | App/Commands/PwInstaller.php:207-219 | The each() counts the error rows. |
| Installer.NoErrorsIffAllChecked | App/Commands/PwInstaller.php:215-221 | There are no errors exactly when every row shows fa-check after its first character. |
| Installer.LeadingIconCountsAsError | App/Commands/PwInstaller.php:215 | A row that starts with fa-check counts as an error, because strpos returns 0. |
| Installer.CompatDecision | App/Commands/PwInstaller.php:219-244 | Without errors the step advances, taking no answer, and it advances only then. Interactively with errors, it checks again exactly when the answer to "Check again?" is yes (Enter meaning yes), taking that answer. Otherwise the answer to "Continue Installation?" decides between proceeding and aborting (Enter meaning no), taking both answers. Running out needs errors, interactive mode and at most one answer. |
| Installer.LazyCompatNeverAborts | App/Commands/PwInstaller.php:221-244 | With errors, lazy mode only ever checks again, without a prompt. Without errors it advances. |
| Installer.AbortNeedsTwoRefusals | App/Commands/PwInstaller.php:228-240 | Aborting needs a no to "Check again?" and a no to "Continue Installation?". Pressing "n" then Enter aborts. |
| Installer.FalseEndsChain | App/Commands/PwInstaller.php:125 | A step that returns false ends the chain, whatever the flags. |
| Installer.PromptOnlyWhenNotWaived | App/Commands/PwInstaller.php:125-128 | "Continue to next step?" is asked only when skipNextConfirm, noConfirm and lazy are all off, and it takes one answer. |
| Installer.Continuation | App/Commands/PwInstaller.php:124-129 | The chain stops for want of an answer exactly when the step returned null, no flag waives the prompt and the answers are exhausted. After null, skipNextConfirm, noConfirm or lazy mode continue without an answer; otherwise the answer to "Continue to next step?" decides, Enter meaning yes. It continues only after null, and consumes at most one answer. |
| Installer.PlainStepEffect | App/Commands/PwInstaller.php:247-264 | stepDatabase and stepAdmin halt on a missing form, and otherwise press "Continue" with the filled values. stepWelcome (source lines 132-136) presses "Get Started" with nothing filled in. |
| Installer.PwInstaller.constructor | App/Commands/PwInstaller.php:15-53 | The command starts with no host, no flags set, a step count of 0 and an empty history. |
| Installer.PwInstaller.Host | App/Commands/PwInstaller.php:598-645 | The host is settled and cached as ChosenHost gives it. The result is HostUrl, or an unreachable-host halt in place of exit(1). |
| Installer.PwInstaller.Reload | App/Commands/PwInstaller.php:100 | A reload records exactly one GET. When host() halts, nothing is recorded. |
| Installer.PwInstaller.StepWelcome | App/Commands/PwInstaller.php:132-136 | The "Get Started" form is submitted. |
| Installer.PwInstaller.StepForm | App/Commands/PwInstaller.php:247-264 | The answers and the submitted values are those of FillSpec. A missing form halts with the history unchanged. |
| Installer.PwInstaller.GetStep | App/Commands/PwInstaller.php:554-596 | On an installer page the state is unchanged and the result is the heading classification. Without the banner, an existing index.php halts. Otherwise DownloadChoice decides: no answer or a refusal stops with the history unchanged; a download is recorded, puts index.php in the docroot and continues in a nested nextStep(true), recorded as the next call with a reload and without noConfirm, which starts with the download and version answers consumed and index.php present. |
| Installer.PwInstaller.NextStep | App/Commands/PwInstaller.php:94-130 | stepCount grows on every call, and the call is recorded as the next entry of the calls made, with its reload and noConfirm arguments, the answers left, skipNextConfirm and whether index.php and the profile directory exist. Beyond the ceiling of 50 the call returns null and changes nothing else. Below it, a reload records a GET as the next history entry unless it halts. Without a reload, a page without the installer banner halts (with an existing index.php, at once) or returns false, as line 104 makes of getStep's nested result; unmatched headings give null, or false when the list is empty. A matched step is run, and after welcome, database and admin the continuation prompt is honoured as Continuation states, the next call being nextStep() with neither flag, started once the confirmation's answer is consumed. No more than 50 steps ever run. |
| Installer.PwInstaller.LoadAndRun | App/Commands/PwInstaller.php:100-129 | A reload records a GET as the next history entry unless it halts. Without a reload, a page without the installer banner halts or returns false, and an installer page is classified and run as RunCurrentStep states. |
| Installer.PwInstaller.RunCurrentStep | App/Commands/PwInstaller.php:103-129 | A page without the installer banner halts (with an existing index.php, at once) or returns false, since the nested result of getStep is null or false. The step getStep finds is recorded and run. After welcome, database and admin, the step's event is the next entry of the history, and the chain goes on exactly when Continuation says so, with a nextStep() that starts from the answers Continuation leaves. Unmatched headings leave the history and the answers unchanged. |
| Installer.PwInstaller.RunAndContinue | App/Commands/PwInstaller.php:112-129 | The step is recorded as handled and run. After welcome, database and admin, the chain goes on exactly when Continuation says so, with a nextStep() that starts from the answers Continuation leaves. After compatibility and profile, it states only that the step is recorded and the state grows monotonically. |
| Installer.PwInstaller.GoOn | App/Commands/PwInstaller.php:124-129 | nextStep() is called again, without reload or noConfirm, exactly when Continuation says so. That call starts from the answers Continuation leaves, with skipNextConfirm and the files as they were. A stop for want of an answer halts; a stop after a refusal returns null and consumes that answer. |
| Installer.PwInstaller.RunStep | App/Commands/PwInstaller.php:112-114 | The handler is chosen by the step. Welcome, database and admin record the event PlainStepEffect gives, or halt as it does. The finish step ends the run. |
| Installer.PwInstaller.StepProfile | App/Commands/PwInstaller.php:138-203 | A fetched RockFrontend profile is recorded as fetched and reloads through a nested nextStep(true, true), recorded as the next call, which starts with the fetch answer consumed and the profile directory present. Otherwise the submitted profile is ProfilePick's, and an empty option list halts. |
| Installer.PwInstaller.FetchAndReload | App/Commands/PwInstaller.php:144-151 | The fetch is recorded as the next history entry and the profile directory then exists. The nested nextStep is counted and recorded as the next call with a reload and with noConfirm, started with the profile directory present and the answers untouched, and the result is a halt or null. |
| Installer.PwInstaller.StepCompatibility | App/Commands/PwInstaller.php:205-245 | The decision is CompatDecision's on the error count and the answers. Running out halts. A recheck sets skipWelcome, counts a nested nextStep(true), recorded as the next call with a reload and without noConfirm, which starts with the "Check again?" answer consumed and skipNextConfirm set, and, below the ceiling, records its reload GET as the next history entry unless that halts. Proceeding sets skipNextConfirm and advancing clears it; both submit "Continue to Next Step", take the decision's answers and return null. Abort halts. |
| Installer.PwInstaller.Handle | App/Commands/PwInstaller.php:73-90 | In the wrong shell the result is FAILURE; with ProcessWire installed it is SUCCESS, with nothing changed in either case. Otherwise nextStep(true) is counted and recorded as the first call, with a reload and without noConfirm, from the answers and flags as they were; the result is never FAILURE, and below the ceiling the first thing recorded is the GET of the reload unless the run halts first. At most 50 steps run. |

## Left out

- The HTTP browser and the DOM crawler are not modelled. The page the command sees is a server function of the command's history, and a URL probe is a status function.
- Console output is left out: messages, warnings, alerts, verbose echoes and the separator lines. So are the Symfony console's prompt rendering and autocompletion; the operator is a script of answers.
- getenv is a parameter (`Urls.Env`). The docroot's index.php and the site-rockfrontend directory are booleans of the command object.
- The shell and filesystem effects (wget, unzip, rm, the pw:download call) are events in the history, with no contents.
- sleep(1), the debug pause and the debug var_dump are left out.
- The uncaught error after "No form found" is modelled as a halt.
- die() and exit(1) are halts that end the run.
- The finish step halts (`Finished`) without modelling stepFinish's body. That covers stepReloadAdmin: its include of index.php, its notice-count reload loop and its final die().
- The alert rows nextStep prints before running a step are output only and are left out.
- parse_url is not re-implemented. normalizeUrl takes the parts parse_url reports, and host() reads the port as a trailing ":digits".
- preg_split is modelled as a split at single delimiters followed by the filter. Empty pieces are the only difference, and the filter removes them.
- PHP's loose comparisons are modelled only where the code relies on them: `$port == 443`, truthiness, (int) of a string for findTimezone, and strpos returning 0.
- Timezones.IntCastIsZero: (int) in findTimezone does not read an exponent form. PHP's (int)"5e-1" is 0, but the model reads the leading 5 as nonzero.
- FormFill.HostsInputOf: a default that is neither a string nor a list is cleaned as its string form. In PHP, array_map would throw on such a value, but no caller passes one: form values and CLI options are strings or lists.
- The --name, --pass and --mail options are declared but never read under those names, so the model never reads them either.
- The step (--step) option is not read by the code and is left out.
- Installer.PwInstaller.Reload: states only that one GET is recorded on success and nothing on a halt. It does not state which URL, that is HostUrl of the settled host: tying the two made the callers' proofs too costly. Host itself carries its full contract.
- Installer.PwInstaller.NextStep: after a reload it states the GET, the monotone facts and the ceiling but not the classification of the reloaded page, because the reloaded page depends on the server function.
- Installer.PwInstaller.LoadAndRun: after a reload it states the GET and the monotone facts but not the classification of the reloaded page, for the same reason.
- Installer.PwInstaller.RunStep: states the outcome of welcome, database, admin and finish. The compatibility and profile handlers' contracts are stated on those handlers themselves.
- Installer.PwInstaller.NextStep: the continuation prompt is stated in full only after welcome, database and admin. After compatibility and profile, NextStep and RunCurrentStep promise nothing about the continuation: only the monotone facts and the handled step.
- Installer.PwInstaller.RunAndContinue: states the continuation only after welcome, database and admin. After compatibility and profile it promises nothing about whether nextStep is called again, because that depends on the skipNextConfirm value the handler leaves, which the contract does not carry across.
- Installer.PwInstaller.StepCompatibility: does not state what the nested nextStep(true) of a recheck does after its GET, since the reloaded page depends on the server function.
- pw:download is not part of this model. The model assumes that a download puts index.php in the docroot.
- FormFill.FillSpec and Steps.ClassifyHeadings carry no contract of their own. Their properties are stated by FormFill.FillForm, the FormFill lemmas about FillSpec, Steps.LastMatchDecides and Steps.UnmatchedHeadingsReturned.
- Strings.StrLen: a PHP string is a byte string, and the model's strings are sequences of code points. strlen() is modelled as the UTF-8 length of the text, so input that is not valid UTF-8 is not modelled.
- skipWelcome only suppresses the "Welcome" line, so the model keeps the field but nothing depends on it.
- The probe requests of host() are not recorded in the history. Only the GET of the resolved install.php URL is recorded.
