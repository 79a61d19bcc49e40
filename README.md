# RunnerManager, modelled in Dafny

This project models the logic of `RunnerManager` in the web interface of
github-runner-automation (`web-gui/app.py`). It covers:

- **Output cleaning** (`clean_ansible_output`): Ansible's `host | CHANGED | rc=0 >>`
  style banners, `[...]` lines and blank lines are dropped from command output.
- **Inventory parsing** (`load_servers`): the Ansible inventory is read into server
  records.
- **Vault parsing** (`load_config`): the GitHub token, username and scan interval are
  read from the vault file.
- **Status and cache** (`get_server_status`): three probes are classified into a status
  record, and the record is kept in a five-second cache keyed by host.
- **Runner listing** (`get_runners`): each runner service's `systemctl show` reply is
  parsed for its description, repository and state.
- **Inventory edits**: the configuration page inserts a new host entry after the
  `[runner-hosts]` header, or removes the lines that name a host.

## Files

| file | module | what it holds |
|---|---|---|
| `pystr.dfy` | `PyStr` | The Python string operations the code relies on, with their laws. |
| `ansible.dfy` | `Ansible` | The command line of `run_ansible_command`, the reply type, and the cleaner. |
| `inventory.dfy` | `Inventory` | `load_servers`, and the add and remove edits of the inventory lines. |
| `vault.dfy` | `Vault` | `load_config`. |
| `status.dfy` | `Status` | The probes, the classification and the cache step, as functions. |
| `runners.dfy` | `Runners` | `get_runners` and its `systemctl show` parser. |
| `manager.dfy` | `Manager` | The `RunnerManager` class, and the shared status cache as a class. |

`PyStr` covers these Python operations:

- `split(c)`, `join` and `strip()`.
- `split()` on whitespace.
- `in` and `startswith`.
- `split(c)[k]`: an out-of-range index is `None`, which stands for the `IndexError`.
- `int()` on decimal digits.

Whitespace is Python's `str.isspace` set, character for character.

How the outside world enters the model:

- **Commands.** `run_ansible_command` is an oracle `Executor = string -> Reply`, applied to
  the full command line. A reply is `(stdout, stderr, code)`, or `Raised(message)` for an
  exception.
- **Time.** `time.time()` is the parameter `now`.
- **Files.** The inventory and vault files are their contents, with `None` when a file
  cannot be read.
- **Lines being edited.** The lines the configuration page edits are a sequence of strings,
  each keeping its newline, as `readlines` gives them.

Where the code does something one might not expect, the model follows the code:

- **Cleaning is not idempotent.** A word line followed by a `[` line indented by two
  spaces, such as `"abc\n  [x"`, cleans to `"abc\n[x"`, and that cleans to `"abc"`
  (`Ansible.CleanNotIdempotent`).
- **The host is the second word's value, whatever its key.** `n ansible_user=root
  ansible_host=1.2.3.4` loads with host `root` (`Inventory.HostFromSecondWord`).
- **The exception path is not cached** (`Status.FailureIsNotCached`). The degraded record
  is returned, and the next call probes again.
- **A garbled `ActiveState` value on a following line is ignored.** `ActiveState=active`
  followed by any other text on the next lines yields `active`
  (`Runners.FirstLineSetsState`).
- **A commented-out token line is still read.** A commented-out username line is not
  (`Vault.TokenLineRead`, `Vault.UsernameLineRead`).
- **Tab-separated entries are not removed.** An entry whose name is followed by a tab
  loads as a server, but removal matches only `name` followed by a space
  (`Inventory.TabSeparatedEntryLoads`, `Inventory.TabSeparatedEntryNotRemoved`).
- **A listing with no runner service yields one runner named after the banner.** With no
  runner unit the listing command succeeds with no output, so its reply is the banner line
  alone; cleaning keeps nothing and falls back to that line, which is then taken for a
  service (`Runners.BannerListedAsRunner`). See "Findings" below.
- **An entry added at the end of a file without a final newline joins the last line.**
  See "Findings" below. The model keeps `Inventory.AddServer` as written and proves the
  defect about it; `Inventory.AddServerTerminated` is the corrected add.

## Model

| member | source | states |
|---|---|---|
| `Ansible.AnsibleCommandLayout` | web-gui/app.py:79-81 | Every command line is the prefix naming the inventory file, the `runner-hosts` group and the shell module, then the command, the closing quote, and ` -b -u <user>` exactly when `become` is set (nothing otherwise) |
| `Ansible.AnsibleCommandInjective` | web-gui/app.py:79-81 | A command without a quote can be read back from its command line: two such commands give the same line only if they are equal and have the same `become` suffix |
| `Ansible.CleanOutput` | web-gui/app.py:96-118 | The loop yields `Clean(output)`: empty input is returned unchanged, otherwise the stripped survivors joined by newlines, or `output.strip()` when none survive |
| `Ansible.KeptLinesAppend` | web-gui/app.py:105-116 | The cleaner works line by line: the survivors of two stretches of lines are those of the first followed by those of the second |
| `Ansible.KeptLineOrigin` | web-gui/app.py:105-116 | Every kept line is the stripped form of an input line that is not a banner, not blank and does not start with `[` |
| `Ansible.KeptLinesShape` | web-gui/app.py:108-116 | Every kept line is non-empty, already stripped, holds no newline and is not a CHANGED/SUCCESS/FAILED banner |
| `Ansible.CleanedLines` | web-gui/app.py:118 | When some line survives, splitting the cleaned output on newlines gives back exactly the kept lines |
| `Ansible.CleanFallsBackToStrip` | web-gui/app.py:118 | When no line survives, the result is `output.strip()` |
| `Ansible.NoBarNoBanner` | web-gui/app.py:108-113 | A line without a vertical bar is never taken for a status banner |
| `Ansible.CleanIdempotentWithoutIndentedBrackets` | web-gui/app.py:96-118 | Cleaning twice is cleaning once when some line survives and no kept line starts with `[` |
| `Ansible.SurvivorShape` | web-gui/app.py:108-116 | The stripped form of a surviving line is non-empty, stripped, and no banner |
| `Ansible.WordSurvives` | web-gui/app.py:105-116 | A single word holding no vertical bar and not starting with `[` survives cleaning unchanged |
| `Ansible.IndentedBracketSurvives` | web-gui/app.py:114-116 | A `[` line indented by two spaces survives the `[` test and is kept stripped, so it then starts with `[` |
| `Ansible.CleanKeepsIndentedBracket` | web-gui/app.py:96-118 | For a word `w` and a word `x` without a vertical bar, `w\n  [x` cleans to `w\n[x` |
| `Ansible.CleanDropsBracket` | web-gui/app.py:96-118 | `w\n[x` cleans to `w`: a line starting with `[` is dropped |
| `Ansible.CleanNotIdempotent` | web-gui/app.py:96-118 | For every such `w` and `x`, cleaning `w\n  [x` twice gives `w`, not the result of cleaning once: cleaning is not idempotent |
| `Ansible.BannerShape` | web-gui/app.py:107-112 | Every line `h vertical-bar KEYWORD vertical-bar rc=<digit>...` matches the banner pattern for that keyword |
| `Ansible.ChangedBannerIsBanner` | web-gui/app.py:107-108 | The reply line of a command that succeeded with no output, `h vertical-bar CHANGED vertical-bar rc=0 >>`, is a banner, stripped and without a newline |
| `Ansible.CleanBannerOnly` | web-gui/app.py:98-118 | An output that is a single banner line keeps no line, so cleaning falls back to `output.strip()` and gives the banner back |
| `Inventory.LoadServers` | web-gui/app.py:37-57 | The loop yields `ParseServers` of the content's lines, and no servers when the file cannot be read; a second word without `=` ends the parse |
| `Inventory.ParseServersAppend` | web-gui/app.py:44-54 | Records come line by line in file order, and a halting line drops every later line |
| `Inventory.RecordShape` | web-gui/app.py:45-53 | A record comes from a non-comment line holding `ansible_host=` with at least two words: its name is the first word, its host the text between the first two `=` of the second word, its status unknown |
| `Inventory.ServerOrigin` | web-gui/app.py:44-53 | Every loaded record is the record of some inventory line |
| `Inventory.RecordLineLoaded` | web-gui/app.py:44-53 | Every record line before the first halting line is loaded |
| `Inventory.NoHostLinesNoServers` | web-gui/app.py:45 | An inventory without `ansible_host=` loads no servers |
| `Inventory.ParseKeyValueLine` | web-gui/app.py:44-53 | A non-comment line `name k1=v1 k2=v2` naming `ansible_host` loads as server `name` with host `v1`, the value of the second word |
| `Inventory.HostFromSecondWord` | web-gui/app.py:46-49 | With `ansible_user=` written before `ansible_host=`, the user name is loaded as the host |
| `Inventory.AddServer` | web-gui/app.py:362-385 | Nothing is inserted without a name and a host, or without a `[runner-hosts]` header; otherwise exactly one entry line is inserted after the first header and the comments and blank lines that follow it, all other lines kept in order |
| `Inventory.FindInsertionPoint` | web-gui/app.py:367-376 | A header is found exactly when some line strips to `[runner-hosts]`; the point found is just past the first header and the comment and blank lines after it |
| `Inventory.AddAtEndGluesEntry` | web-gui/app.py:364-381 | As written: when the entry goes at the end of a file whose last line has no newline, reading the written file back gives no new line, and the last line is the old last line with the entry appended |
| `Inventory.GluedHeaderLoadsAsServer` | web-gui/app.py:44-53 | When the unterminated last line was the `[runner-hosts]` header, the glued line is no longer a header and loads as a server named the header followed by the entry's name, with the entry's host |
| `Inventory.GluedCommentDropsEntry` | web-gui/app.py:45 | When the unterminated last line was a comment, the glued line is a comment and the entry is not loaded |
| `Inventory.AddServerTerminated` | web-gui/app.py:362-381 | The add with the missing newline supplied: the same outcomes as the add, and the entry is inserted at the same point after the earlier lines, the last of which is given a newline when it lacks one and the entry goes at the end |
| `Inventory.AddedEntryIsReadBack` | web-gui/app.py:364-381 | With the newline supplied, the written file reads back as exactly the edited lines: one line more than before, with the entry at the insertion point |
| `PyStr.ReadWriteLines` | web-gui/app.py:366 | Lines that each end with their only newline, except perhaps the last, are written and read back unchanged |
| `PyStr.WriteReadLines` | web-gui/app.py:366 | Reading a text gives such lines, and writing them back gives the text |
| `PyStr.GlueLast` | web-gui/app.py:380-381 | A line written after a last line that has no newline is read back joined onto it |
| `Inventory.EntryParsesBack` | web-gui/app.py:378 | The inserted entry loads back as a server with the given name and host |
| `Inventory.RemoveMembership` | web-gui/app.py:405-409 | `RemoveServerLines` is the remove edit. A line survives it exactly when it was there and its stripped form neither equals the name nor starts with the name and a space |
| `Inventory.RemoveAppend` | web-gui/app.py:407 | Removal filters line by line, keeping the order of the lines |
| `Inventory.RemoveIdempotent` | web-gui/app.py:407 | Removing twice is removing once |
| `Inventory.RemoveInserted` | web-gui/app.py:405-409 | Inserting a line that removal drops, anywhere, does not change the result of removal |
| `Inventory.AddThenRemove` | web-gui/app.py:369-379 | Removing a just-added server gives what removing it from the lines before the add gives: the added entry leaves no trace in the result |
| `Inventory.TabSeparatedEntryLoads` | web-gui/app.py:44-53 | An entry whose name is followed by a tab loads as a server of that name |
| `Inventory.TabSeparatedEntryNotRemoved` | web-gui/app.py:407 | The same tab-separated entry survives removing that name |
| `Vault.LoadConfig` | web-gui/app.py:59-74 | The loop yields `ReadLines` of the content's lines, and an empty configuration when the file cannot be read |
| `Vault.ReadPrefix` | web-gui/app.py:65-71 | The lines read are a prefix of the file; none of them raises, and the line after them does |
| `Vault.ReadStopsAtFailure` | web-gui/app.py:65-73 | A missing quote or a non-integer interval ends the reading, keeping what was read before it |
| `Vault.LastAssignmentWins` | web-gui/app.py:65-71 | A later matching line overwrites an earlier one: a key holds the value of the last line assigning it, or its earlier value when no line does |
| `Vault.LoadedValue` | web-gui/app.py:59-74 | A key is loaded exactly when a line before the first failure assigns it, and its value is that of the last such line |
| `Vault.TokenLineRead` | web-gui/app.py:66-67 | A `github_token:` line with a quoted `ghp_` token sets the token, even when commented out |
| `Vault.UsernameLineRead` | web-gui/app.py:68-69 | A `github_username:` line sets the quoted username unless the line starts with `#`, in which case it changes nothing |
| `Vault.IntervalLineRead` | web-gui/app.py:70-71 | A `scan_interval_minutes:` line followed by the digits of `n` sets the interval to `n`, commented out or not |
| `Status.FreshEntryAnswers` | web-gui/app.py:125-129 | An entry less than five seconds old is returned, with no command issued and the cache unchanged |
| `Status.StaleEntryReprobes` | web-gui/app.py:126-133 | Without a fresh entry the timer probe is issued first and the probe's record is returned |
| `Status.ProbedRecordIsCached` | web-gui/app.py:125-167 | A completed probe is stored under the host with the time taken before probing, so a call less than five seconds later issues no command |
| `Status.FailureIsNotCached` | web-gui/app.py:169-176 | On the exception path the record is offline, with no runners and an `Error: ` message; the cache is unchanged and the next call probes again |
| `Status.OnlyHostEntryChanges` | web-gui/app.py:166 | No entry but the host's changes, and that one only to the new record |
| `Status.OnlineIffTimerActive` | web-gui/app.py:133-163 | The server is online, and its automation active, exactly when the timer probe's code is 0 and its cleaned, stripped output is `active`; the runner count is that of the runner probe's reply, and the last activity is the cleaned log output or `No log available` |
| `Status.StatusAgreesWithAutomation` | web-gui/app.py:153-166 | Every returned or cached record says online exactly when it says the automation is active |
| `Status.LastActivityShape` | web-gui/app.py:149-150 | The last activity is never empty and is stripped; a failed log probe gives `No log available` |
| `Status.RunnerLineOrigin` | web-gui/app.py:143-145 | Each counted runner is a stripped cleaned line holding both `github-runner@` and `active running` |
| `Status.RunnerLinesAppend` | web-gui/app.py:143 | The runner count adds up over consecutive stretches of cleaned lines |
| `Status.AllRunnerLinesCounted` | web-gui/app.py:143-145 | Among any lines, every line holding both markers is counted: its stripped form is the count's entry right after those of the lines before it |
| `Status.RunnerCountIsRunnerLines` | web-gui/app.py:143-145 | The runner count is the number of cleaned lines holding both `github-runner@` and `active running` |
| `Runners.ParseShow` | web-gui/app.py:188-205 | The loop over a `systemctl show` reply yields `ShowOutputFields` of it |
| `Runners.StateIsFirst` | web-gui/app.py:197-205 | Only the first `ActiveState=` line sets the state; once set it stays |
| `Runners.DescriptionAndRepoAreLast` | web-gui/app.py:192-196 | The description is the last `Description=` value; the repository is the text after `for ` in the last description naming one, and is not reset by later descriptions without `for ` |
| `Runners.ShowFieldsSpec` | web-gui/app.py:188-205 | The state, description and repository of a reply, each stated without the loop |
| `Runners.StateRange` | web-gui/app.py:197-205 | The state is empty exactly when no line starts with `ActiveState=`, and is otherwise one of the seven listed states or `unknown` |
| `Runners.FirstLineSetsState` | web-gui/app.py:191-202 | A first line `ActiveState=<v>` with a listed state `v` sets the state to `v`, whatever follows it |
| `Runners.NormaliseState` | web-gui/app.py:199-205 | A listed state is kept, anything else becomes `unknown`, and the result is never empty |
| `Runners.SlashesToDashes` | web-gui/app.py:209 | The result has the same length, no `/`, and `-` exactly where the input had `/` |
| `Runners.EscapedRepoShape` | web-gui/app.py:209 | The escaped repository is the repository with every `/` turned into `-` |
| `Runners.ServiceNames` | web-gui/app.py:182 | Every service name is non-empty and stripped, and there are no more names than lines |
| `Runners.ServiceNamesAppend` | web-gui/app.py:182 | The names of consecutive stretches of lines are those of the first followed by those of the second, so the order of the lines is kept |
| `Runners.ServiceNamesOfLine` | web-gui/app.py:182 | One line gives its stripped form as a name, or nothing when that is blank; with the append law this fixes the names of any lines |
| `Runners.ServiceNamesMembership` | web-gui/app.py:182 | A name is listed exactly when it is non-empty and the stripped form of some line |
| `Runners.ServicesAreCleanedLines` | web-gui/app.py:182 | When some cleaned line survives, the services are exactly the cleaned lines |
| `Runners.GetRunners` | web-gui/app.py:178-213 | The loop yields `RunnersOf(exec)`: the runners of the listed services, or the exception of the first probe that raises |
| `Runners.OneRunnerPerService` | web-gui/app.py:184-212 | One runner per service, in order, each built from that service's own `systemctl show` reply |
| `Runners.ShowAllFailsIff` | web-gui/app.py:184-187 | Listing fails exactly when one of the show probes raises |
| `Runners.BannerOnlyListing` | web-gui/app.py:180-182 | As written: a listing reply that is a single banner line gives that banner as the one service name |
| `Runners.BannerListedAsRunner` | web-gui/app.py:178-213 | As written: with such a reply and a show probe that does not raise, `get_runners` lists exactly one runner, whose service is the banner |
| `Runners.ListedServices` | web-gui/app.py:180-182 | The services as evidently intended, the kept lines of the listing: each is non-empty, stripped and no banner |
| `Runners.ListedServicesAgree` | web-gui/app.py:180-182 | The intended services equal the listed ones whenever some line survives cleaning, and a banner-only reply gives no service |
| `Manager.RunnerManager.constructor` | web-gui/app.py:33-35 | A new manager holds the servers of the inventory and the configuration of the vault |
| `Manager.RunnerManager.GetServerStatus` | web-gui/app.py:120-176 | The method's record, new cache and issued commands are those of `StatusQuery` on the old cache |

## Left out

- Flask routes, templates, request and form handling (`web-gui/app.py:248-435`) are the HTTP
  layer. A missing form field (`None`) is not modelled. The name, host and user are strings.
- `subprocess.run`, the timeouts passed to it, and its output are external process I/O.
  `run_ansible_command` is the `Executor` oracle. The oracle is a fixed function within one
  call, so a probe repeated in the same call gets the same reply.
- The `except` inside `run_ansible_command` turns subprocess failures into
  `("", message, 1)`, so no exception from the oracle reaches `get_server_status` in
  practice. `Raised` still models one, so that the `except` branch of `get_server_status`
  and the propagation out of `get_runners` are covered.
- File reads and writes, `yaml.safe_load` and `yaml.safe_dump`, and the vault update branch
  of the configuration page are I/O. The model works on file contents and line sequences.
- `start_runner`, `stop_runner`, `restart_automation` and `trigger_scan` are thin wrappers
  (`success == (code == 0)`). So are the runner stop, disable and rm commands issued
  before a removal.
- Logging, the unused `threading` import, and concurrency. The code has no concurrency.
- `int()` corner cases are not modelled: signs, underscores, surrounding Unicode
  whitespace and non-ASCII digits. A non-ASCII digit in an interval is modelled as a
  `ValueError`.
- The banner regexes match `\d` as an ASCII digit only. Python's `\d` also matches other
  Unicode decimal digits.
- The time is a real number. Floating-point rounding in `current_time - cache_time` is not
  modelled.

## Findings

| source | as written | input that shows it | evidently intended | confidence | as-written member | corrected member |
|---|---|---|---|---|---|---|
| web-gui/app.py:364-381 | The entry is inserted into the lines of `readlines` and written with `writelines`, which adds no newline; when the insertion point is the end of a file whose last line has no newline, the entry is written onto that line | An inventory `"[runner-hosts]"` with no trailing newline, adding `n` at `1.2.3.4`: the file becomes `"[runner-hosts]n ansible_host=1.2.3.4 ansible_user=root\n"`, which loads as a server named `[runner-hosts]n`; the header is gone, so the next add reports the section missing. After a last line `# hosts` the entry is a comment and is not loaded at all | The entry is a line of its own, so the file read back holds the old lines and the entry | not executed | `Inventory.AddAtEndGluesEntry`, `Inventory.GluedHeaderLoadsAsServer`, `Inventory.GluedCommentDropsEntry` | `Inventory.AddServerTerminated`, `Inventory.AddedEntryIsReadBack` |
| web-gui/app.py:178-187 | The service names are the non-blank lines of the cleaned listing; when no line survives cleaning, `clean_ansible_output` returns `output.strip()`, so a reply that is only the status banner is taken for a service | A host with no runner unit: the listing reply is `h vertical-bar CHANGED vertical-bar rc=0 >>`, and `get_runners` lists one runner whose service is that line, after probing `systemctl show` with it | No service, and no runner, when no listing line survives cleaning | not executed | `Runners.BannerOnlyListing`, `Runners.BannerListedAsRunner` | `Runners.ListedServices`, `Runners.ListedServicesAgree` |
