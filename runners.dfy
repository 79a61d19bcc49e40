/** `RunnerManager.get_runners`: the runner services of the `runner-hosts` group and, for
    each, the description, repository and state read from `systemctl show`. */
module Runners {
  import opened PyStr
  import opened Ansible

  /** The states `get_runners` accepts as they are; any other value becomes `unknown`. */
  predicate IsKnownState(v: string) {
    v == "active" || v == "inactive" || v == "activating" || v == "deactivating" ||
    v == "failed" || v == "reloading" || v == "maintenance"
  }

  function NormaliseState(v: string): (r: string)
    ensures r != ""
    ensures IsKnownState(r) || r == "unknown"
    ensures IsKnownState(v) ==> r == v
    ensures !IsKnownState(v) ==> r == "unknown"
  {
    if IsKnownState(v) then v else "unknown"
  }

  /** What `get_runners` has read from a `systemctl show` reply so far. */
  datatype ShowFields = ShowFields(description: string, state: string, repo: string)

  const NoFields := ShowFields("", "", "")

  predicate IsDescriptionLine(line: string) {
    StartsWith(line, "Description=")
  }

  predicate IsStateLine(line: string) {
    StartsWith(line, "ActiveState=")
  }

  /** `s.split(sep, 1)[1]` when `sep` occurs in `s`. */
  function AfterFirst(s: string, sep: string): (r: Option<string>)
    ensures r.Some? <==> Contains(s, sep)
    ensures r.Some? ==> exists i: nat :: (HasAt(s, sep, i) && r.value == s[i + |sep|..])
  {
    match IndexOf(s, sep)
    case None => None
    case Some(i) => Some(s[i + |sep|..])
  }

  /** The repository named in a description: the text after its first `for `. */
  function RepoIn(description: string): Option<string> {
    AfterFirst(description, "for ")
  }

  /** The loop body over one line of the `systemctl show` reply: a `Description=` line
      replaces the description and, when it names one, the repository; only the first
      `ActiveState=` line sets the state. */
  function ShowStep(f: ShowFields, line: string): ShowFields {
    var f1 :=
      if IsDescriptionLine(line) then
        var d := line[12..];
        f.(description := d, repo := match RepoIn(d) case Some(r) => r case None => f.repo)
      else f;
    if IsStateLine(line) && f1.state == "" then f1.(state := NormaliseState(Strip(line[12..])))
    else f1
  }

  function ShowFold(f: ShowFields, lines: seq<string>): ShowFields
    decreases |lines|
  {
    if lines == [] then f else ShowFold(ShowStep(f, lines[0]), lines[1..])
  }

  /** The fields read from a raw `systemctl show` reply (it is not cleaned first). */
  function ShowOutputFields(showOut: string): ShowFields {
    ShowFold(NoFields, Split(showOut, '\n'))
  }

  /** The inner loop of `get_runners`. */
  method ParseShow(showOut: string) returns (description: string, state: string, repo: string)
    ensures ShowFields(description, state, repo) == ShowOutputFields(showOut)
  {
    var lines := Split(showOut, '\n');
    description, state, repo := "", "", "";
    var i := 0;
    while i < |lines|
      invariant 0 <= i <= |lines|
      invariant ShowFold(ShowFields(description, state, repo), lines[i..]) == ShowOutputFields(showOut)
    {
      assert lines[i..][1..] == lines[i + 1..];
      var line := lines[i];
      if StartsWith(line, "Description=") {
        description := line[12..];
        var r := AfterFirst(description, "for ");
        if r.Some? {
          repo := r.value;
        }
      }
      if StartsWith(line, "ActiveState=") && state == "" {
        var value := Strip(line[12..]);
        if IsKnownState(value) {
          state := value;
        } else {
          state := "unknown";
        }
      }
      i := i + 1;
    }
  }

  // ---------------------------------------------------------------------------
  // The fields, defined without the loop

  /** The state from the first `ActiveState=` line; empty when there is none. */
  function FirstState(lines: seq<string>): string {
    if lines == [] then ""
    else if IsStateLine(lines[0]) then NormaliseState(Strip(lines[0][12..]))
    else FirstState(lines[1..])
  }

  /** The value of the last `Description=` line. */
  function LastDescription(lines: seq<string>): Option<string>
    decreases |lines|
  {
    if lines == [] then None
    else if IsDescriptionLine(lines[|lines| - 1]) then Some(lines[|lines| - 1][12..])
    else LastDescription(lines[..|lines| - 1])
  }

  /** The repository of the last `Description=` line that names one. */
  function LastRepo(lines: seq<string>): Option<string>
    decreases |lines|
  {
    if lines == [] then None
    else if IsDescriptionLine(lines[|lines| - 1]) && RepoIn(lines[|lines| - 1][12..]).Some? then
      RepoIn(lines[|lines| - 1][12..])
    else LastRepo(lines[..|lines| - 1])
  }

  lemma {:induction false} ShowFoldAppend(f: ShowFields, a: seq<string>, b: seq<string>)
    ensures ShowFold(f, a + b) == ShowFold(ShowFold(f, a), b)
    decreases |a|
  {
    if a == [] {
      assert a + b == b;
    } else {
      assert (a + b)[1..] == a[1..] + b;
      ShowFoldAppend(ShowStep(f, a[0]), a[1..], b);
    }
  }

  /** Only the first `ActiveState=` line counts: once set, the state stays. */
  lemma {:induction false} StateIsFirst(f: ShowFields, lines: seq<string>)
    ensures ShowFold(f, lines).state == if f.state == "" then FirstState(lines) else f.state
    decreases |lines|
  {
    if lines != [] {
      StateIsFirst(ShowStep(f, lines[0]), lines[1..]);
    }
  }

  /** The description is that of the last `Description=` line, and the repository that of
      the last description naming one; a later description without `for ` does not reset
      the repository. */
  lemma {:induction false} DescriptionAndRepoAreLast(f: ShowFields, lines: seq<string>)
    ensures ShowFold(f, lines).description ==
      match LastDescription(lines) case Some(d) => d case None => f.description
    ensures ShowFold(f, lines).repo ==
      match LastRepo(lines) case Some(r) => r case None => f.repo
    decreases |lines|
  {
    if lines != [] {
      var init := lines[..|lines| - 1];
      var last := lines[|lines| - 1];
      assert init + [last] == lines;
      ShowFoldAppend(f, init, [last]);
      DescriptionAndRepoAreLast(f, init);
    }
  }

  /** The three fields of a `systemctl show` reply, stated without the loop. */
  lemma ShowFieldsSpec(showOut: string)
    ensures var lines := Split(showOut, '\n'); var f := ShowOutputFields(showOut);
      f.state == FirstState(lines) &&
      f.description == (match LastDescription(lines) case Some(d) => d case None => "") &&
      f.repo == (match LastRepo(lines) case Some(r) => r case None => "")
  {
    StateIsFirst(NoFields, Split(showOut, '\n'));
    DescriptionAndRepoAreLast(NoFields, Split(showOut, '\n'));
  }

  /** Whatever follows it, a first line `ActiveState=<v>` with `v` a known state sets the
      state to `v`: a garbled value split onto the next line still counts. */
  lemma {:induction false} FirstLineSetsState(v: string, rest: string)
    requires IsKnownState(v) && '\n' !in v && Strip(v) == v
    ensures ShowOutputFields("ActiveState=" + v + "\n" + rest).state == v
  {
    var first := "ActiveState=" + v;
    assert '\n' !in first by {
      assert forall i :: 0 <= i < |first| ==> first[i] == if i < 12 then "ActiveState="[i] else v[i - 12];
    }
    assert "ActiveState=" + v + "\n" + rest == first + ['\n'] + rest;
    SplitPrefix(first, '\n', rest);
    var lines := Split(first + ['\n'] + rest, '\n');
    assert lines[0] == first;
    assert first[..12] == "ActiveState=" && first[12..] == v;
    StateIsFirst(NoFields, lines);
  }

  /** The state is always empty (no `ActiveState=` line), a known state or `unknown`. */
  lemma {:induction false} StateRange(lines: seq<string>)
    ensures var s := FirstState(lines); s == "" || IsKnownState(s) || s == "unknown"
    ensures FirstState(lines) == "" <==> forall i :: 0 <= i < |lines| ==> !IsStateLine(lines[i])
  {
    if lines != [] {
      StateRange(lines[1..]);
      assert forall i :: 1 <= i < |lines| ==> lines[i] == lines[1..][i - 1];
    }
  }

  // ---------------------------------------------------------------------------
  // Runner records

  /** `s.replace('/', '-')` */
  function SlashesToDashes(s: string): (r: string)
    ensures |r| == |s| && '/' !in r
    ensures forall i :: 0 <= i < |s| ==> r[i] == if s[i] == '/' then '-' else s[i]
  {
    if s == [] then []
    else [if s[0] == '/' then '-' else s[0]] + SlashesToDashes(s[1..])
  }

  datatype Runner = Runner(service: string, repo: string, escapedRepo: string, status: string, description: string)

  function RunnerOf(service: string, showOut: string): Runner {
    var f := ShowOutputFields(showOut);
    Runner(service, f.repo, if f.repo != "" then SlashesToDashes(f.repo) else "", f.state, f.description)
  }

  const ListCommand: string :=
    AnsibleCommand("systemctl list-units --type=service | grep github-runner@ | awk \"{print $1}\"",
                   true, "github-runner")

  function ShowCommand(service: string): string {
    AnsibleCommand("systemctl show " + service + " --property=Description,ActiveState", true, "github-runner")
  }

  /** The service names: the non-blank cleaned lines, stripped. */
  function ServiceNames(lines: seq<string>): (r: seq<string>)
    ensures |r| <= |lines|
    ensures forall k :: 0 <= k < |r| ==> r[k] != "" && Strip(r[k]) == r[k]
  {
    if lines == [] then []
    else if Strip(lines[0]) != "" then
      StripIdempotent(lines[0]);
      [Strip(lines[0])] + ServiceNames(lines[1..])
    else ServiceNames(lines[1..])
  }

  /** `get_runners` returns its list or lets an exception of a probe through. */
  datatype RunnersResult = Listed(runners: seq<Runner>) | Failed(message: string)

  function ShowAll(services: seq<string>, exec: Executor): RunnersResult {
    if services == [] then Listed([])
    else
      var reply := exec(ShowCommand(services[0]));
      if reply.Raised? then Failed(reply.message)
      else
        match ShowAll(services[1..], exec)
        case Failed(m) => Failed(m)
        case Listed(rs) => Listed([RunnerOf(services[0], reply.stdout)] + rs)
  }

  function RunnersOf(exec: Executor): RunnersResult {
    var list := exec(ListCommand);
    if list.Raised? then Failed(list.message)
    else ShowAll(ServiceNames(Split(Clean(list.stdout), '\n')), exec)
  }

  /** `runners` already collected, then whatever the remaining services give. */
  function Prepend(runners: seq<Runner>, rest: RunnersResult): RunnersResult {
    match rest
    case Failed(m) => Failed(m)
    case Listed(rs) => Listed(runners + rs)
  }

  lemma ShowAllStep(services: seq<string>, i: nat, exec: Executor, runners: seq<Runner>)
    requires i < |services|
    ensures var reply := exec(ShowCommand(services[i]));
      Prepend(runners, ShowAll(services[i..], exec)) ==
        if reply.Raised? then Failed(reply.message)
        else Prepend(runners + [RunnerOf(services[i], reply.stdout)], ShowAll(services[i + 1..], exec))
  {
    assert services[i..][1..] == services[i + 1..];
    var reply := exec(ShowCommand(services[i]));
    if reply.Reply? {
      match ShowAll(services[i + 1..], exec)
      case Failed(m) =>
      case Listed(rs) =>
        assert runners + [RunnerOf(services[i], reply.stdout)] + rs ==
          runners + ([RunnerOf(services[i], reply.stdout)] + rs);
    }
  }

  /** `get_runners`: list the services, then show each one in turn. */
  method GetRunners(exec: Executor) returns (result: RunnersResult)
    ensures result == RunnersOf(exec)
  {
    var list := exec(ListCommand);
    if list.Raised? {
      return Failed(list.message);
    }
    var services := ServiceNames(Split(Clean(list.stdout), '\n'));
    var runners: seq<Runner> := [];
    var i := 0;
    while i < |services|
      invariant 0 <= i <= |services|
      invariant Prepend(runners, ShowAll(services[i..], exec)) == ShowAll(services, exec)
    {
      ShowAllStep(services, i, exec, runners);
      var service := services[i];
      var reply := exec(ShowCommand(service));
      if reply.Raised? {
        return Failed(reply.message);
      }
      var description, state, repo := ParseShow(reply.stdout);
      var escaped := if repo != "" then SlashesToDashes(repo) else "";
      var runner := Runner(service, repo, escaped, state, description);
      assert runner == RunnerOf(service, reply.stdout);
      runners := runners + [runner];
      i := i + 1;
    }
    assert services[i..] == [];
    result := Listed(runners);
  }

  // ---------------------------------------------------------------------------
  // Properties of the runner list

  /** One runner per service, in order, each built from that service's own reply. */
  lemma {:induction false} OneRunnerPerService(services: seq<string>, exec: Executor)
    requires ShowAll(services, exec).Listed?
    ensures var rs := ShowAll(services, exec).runners;
      |rs| == |services| &&
      forall k :: 0 <= k < |rs| ==>
        exec(ShowCommand(services[k])).Reply? &&
        rs[k] == RunnerOf(services[k], exec(ShowCommand(services[k])).stdout)
  {
    if services != [] {
      OneRunnerPerService(services[1..], exec);
      var rs := ShowAll(services, exec).runners;
      assert forall k :: 1 <= k < |rs| ==> rs[k] == ShowAll(services[1..], exec).runners[k - 1];
    }
  }

  /** The list fails exactly when one of the probes raises. */
  lemma {:induction false} ShowAllFailsIff(services: seq<string>, exec: Executor)
    ensures ShowAll(services, exec).Failed? <==>
      exists k :: 0 <= k < |services| && exec(ShowCommand(services[k])).Raised?
  {
    if services != [] {
      var first := exec(ShowCommand(services[0])).Raised?;
      assert ShowAll(services, exec).Failed? <==> first || ShowAll(services[1..], exec).Failed?;
      ShowAllFailsIff(services[1..], exec);
      SomeProbeRaisesCons(services, exec);
    }
  }

  lemma SomeProbeRaisesCons(services: seq<string>, exec: Executor)
    requires services != []
    ensures (exists k :: 0 <= k < |services| && exec(ShowCommand(services[k])).Raised?) <==>
      exec(ShowCommand(services[0])).Raised? ||
      exists k :: 0 <= k < |services[1..]| && exec(ShowCommand(services[1..][k])).Raised?
  {
    var raises := s => exec(ShowCommand(s)).Raised?;
    ExistsCons(services, raises);
  }

  /** Some element of a non-empty sequence satisfies `p` exactly when the first one does
      or one of the rest does. */
  lemma ExistsCons<T>(xs: seq<T>, p: T -> bool)
    requires xs != []
    ensures (exists k :: 0 <= k < |xs| && p(xs[k])) <==> p(xs[0]) || exists k :: 0 <= k < |xs[1..]| && p(xs[1..][k])
  {
    if exists k :: 0 <= k < |xs| && p(xs[k]) {
      var k :| 0 <= k < |xs| && p(xs[k]);
      if k > 0 {
        assert xs[k] == xs[1..][k - 1];
      }
    }
    if exists k :: 0 <= k < |xs[1..]| && p(xs[1..][k]) {
      var k :| 0 <= k < |xs[1..]| && p(xs[1..][k]);
      assert xs[1..][k] == xs[k + 1];
    }
  }

  /** The escaped repository is the repository with every `/` turned into `-`. */
  lemma EscapedRepoShape(service: string, showOut: string)
    ensures var r := RunnerOf(service, showOut);
      |r.escapedRepo| == |r.repo| && '/' !in r.escapedRepo &&
      forall i :: 0 <= i < |r.repo| ==> r.escapedRepo[i] == if r.repo[i] == '/' then '-' else r.repo[i]
  {
  }

  /** When some cleaned line survives, the services are exactly the cleaned lines. */
  lemma ServicesAreCleanedLines(stdout: string)
    requires KeptLines(Split(stdout, '\n')) != []
    ensures ServiceNames(Split(Clean(stdout), '\n')) == KeptLines(Split(stdout, '\n'))
  {
    var lines := Split(stdout, '\n');
    CleanedLines(stdout);
    KeptLinesShape(lines);
    ServiceNamesOfStripped(KeptLines(lines));
  }

  lemma {:induction false} ServiceNamesOfStripped(ls: seq<string>)
    requires forall k :: 0 <= k < |ls| ==> ls[k] != "" && Strip(ls[k]) == ls[k]
    ensures ServiceNames(ls) == ls
  {
    if ls != [] {
      ServiceNamesOfStripped(ls[1..]);
    }
  }

  /** The service names distribute over consecutive stretches of lines. */
  lemma {:induction false} ServiceNamesAppend(a: seq<string>, b: seq<string>)
    ensures ServiceNames(a + b) == ServiceNames(a) + ServiceNames(b)
  {
    if a == [] {
      assert a + b == b;
    } else {
      assert (a + b)[1..] == a[1..] + b;
      ServiceNamesAppend(a[1..], b);
    }
  }

  /** One line gives its stripped form as a service, unless that is blank. */
  lemma ServiceNamesOfLine(line: string)
    ensures ServiceNames([line]) == if Strip(line) != "" then [Strip(line)] else []
  {
    var none: seq<string> := [];
    assert [line][1..] == none;
  }

  /** A name is a service exactly when it is the non-blank stripped form of some line. */
  lemma {:induction false} ServiceNamesMembership(lines: seq<string>, s: string)
    ensures s in ServiceNames(lines) <==> s != "" && exists i :: 0 <= i < |lines| && Strip(lines[i]) == s
  {
    if lines != [] {
      var tail := lines[1..];
      ServiceNamesMembership(tail, s);
      assert forall i :: 0 <= i < |tail| ==> tail[i] == lines[i + 1];
      if exists i :: 0 <= i < |lines| && Strip(lines[i]) == s {
        var i :| 0 <= i < |lines| && Strip(lines[i]) == s;
        if i > 0 {
          assert Strip(tail[i - 1]) == s;
        }
      }
    }
  }

  /** As written: a listing reply that is a single banner line, the reply when no runner
      service exists, is cleaned back to the banner, which is then taken for a service. */
  lemma BannerOnlyListing(banner: string)
    requires IsAnyBanner(banner) && '\n' !in banner && Strip(banner) == banner
    ensures ServiceNames(Split(Clean(banner), '\n')) == [banner]
  {
    CleanBannerOnly(banner);
    SplitNoSep(banner, '\n');
    ServiceNamesOfLine(banner);
  }

  /** As written: with no runner service, `get_runners` takes the banner for a service
      and lists one runner named after it. (`ChangedBannerIsBanner` shows such a reply.) */
  lemma BannerListedAsRunner(exec: Executor, banner: string)
    requires IsAnyBanner(banner) && '\n' !in banner && Strip(banner) == banner
    requires exec(ListCommand).Reply? && exec(ListCommand).stdout == banner
    requires exec(ShowCommand(banner)).Reply?
    ensures RunnersOf(exec) == Listed([RunnerOf(banner, exec(ShowCommand(banner)).stdout)])
  {
    assert ServiceNames(Split(Clean(banner), '\n')) == [banner] by { BannerOnlyListing(banner); }
    assert RunnersOf(exec) == ShowAll([banner], exec);
    ShowAllSingle(banner, exec);
  }

  lemma ShowAllSingle(service: string, exec: Executor)
    requires exec(ShowCommand(service)).Reply?
    ensures ShowAll([service], exec) == Listed([RunnerOf(service, exec(ShowCommand(service)).stdout)])
  {
    var none: seq<string> := [];
    assert [service][1..] == none;
    assert ShowAll(none, exec) == Listed([]);
  }

  /** The services as evidently intended: the surviving lines of the listing, stripped,
      with no fallback to the banner. */
  function ListedServices(stdout: string): (r: seq<string>)
    ensures forall k :: 0 <= k < |r| ==> r[k] != "" && Strip(r[k]) == r[k] && !IsAnyBanner(r[k])
  {
    KeptLinesShape(Split(stdout, '\n'));
    KeptLines(Split(stdout, '\n'))
  }

  /** The intended services agree with the listed ones whenever some line survives, and a
      banner-only reply lists no service. */
  lemma ListedServicesAgree(stdout: string)
    ensures KeptLines(Split(stdout, '\n')) != [] ==>
      ListedServices(stdout) == ServiceNames(Split(Clean(stdout), '\n'))
    ensures IsAnyBanner(stdout) && '\n' !in stdout ==> ListedServices(stdout) == []
  {
    if KeptLines(Split(stdout, '\n')) != [] {
      ServicesAreCleanedLines(stdout);
    }
    if IsAnyBanner(stdout) && '\n' !in stdout {
      var none: seq<string> := [];
      SplitNoSep(stdout, '\n');
      assert [stdout][1..] == none;
    }
  }
}
