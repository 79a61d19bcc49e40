/** `RunnerManager.get_server_status`: three probes of the `runner-hosts` group, their
    classification into a status record, and the five-second status cache keyed by host. */
module Status {
  import opened PyStr
  import opened Ansible

  datatype Health = Online | Offline
  datatype Automation = Active | Inactive

  /** The record `get_server_status` returns. */
  datatype ServerStatus = ServerStatus(status: Health, automation: Automation, runners: nat, lastActivity: string)

  /** A cached record and the time it was probed at. */
  datatype CacheEntry = CacheEntry(result: ServerStatus, time: real)

  type Cache = map<string, CacheEntry>

  /** Seconds a cached record stays fresh. */
  const CacheTimeout: real := 5.0

  const TimerCommand: string :=
    AnsibleCommand("systemctl is-active github-runner-auto-register.timer", false, "")
  const RunnerListCommand: string :=
    AnsibleCommand("systemctl list-units --type=service | grep github-runner | grep \"active running\"",
                   true, "github-runner")
  const LogCommand: string :=
    AnsibleCommand("tail -1 /var/log/github-runner-auto-register.log 2>/dev/null || echo \"No log available\"",
                   false, "")

  const NoLog: string := "No log available"

  // ---------------------------------------------------------------------------
  // Classification of the three replies

  /** The timer's state: the cleaned, stripped output when the probe succeeded. */
  function TimerState(stdout: string, code: int): string {
    if code == 0 then Strip(Clean(stdout)) else "inactive"
  }

  predicate IsRunnerLine(line: string) {
    Contains(line, "github-runner@") && Contains(line, "active running")
  }

  /** The stripped cleaned lines naming a running runner service, in order. */
  function RunnerLines(lines: seq<string>): (r: seq<string>)
    ensures |r| <= |lines|
  {
    StrippedWhere(lines, IsRunnerLine)
  }

  /** The lines satisfying `p`, stripped, in order. */
  function StrippedWhere(lines: seq<string>, p: string -> bool): (r: seq<string>)
    ensures |r| <= |lines|
  {
    if lines == [] then []
    else if p(lines[0]) then [Strip(lines[0])] + StrippedWhere(lines[1..], p)
    else StrippedWhere(lines[1..], p)
  }

  function RunnerCount(stdout: string): nat {
    |RunnerLines(Split(Clean(stdout), '\n'))|
  }

  /** The last log line, or `No log available` when the probe failed or said nothing. */
  function LastActivity(stdout: string, code: int): string {
    if code == 0 && Strip(Clean(stdout)) != "" then Strip(Clean(stdout)) else NoLog
  }

  function Classify(timer: string, runners: nat, lastLog: string): ServerStatus {
    ServerStatus(if timer == "active" then Online else Offline,
                 if timer == "active" then Active else Inactive,
                 runners, lastLog)
  }

  /** The record of the exception path. */
  function Degraded(message: string): ServerStatus {
    ServerStatus(Offline, Inactive, 0, "Error: " + message)
  }

  /** The outcome of probing: the record, whether it came from the normal path (and so is
      cached), and the commands issued, in order. */
  datatype ProbeRun = ProbeRun(result: ServerStatus, completed: bool, issued: seq<string>)

  /** The three probes in order; an exception stops the probing and yields the degraded
      record. */
  function ProbeServer(exec: Executor): ProbeRun {
    var t := exec(TimerCommand);
    if t.Raised? then ProbeRun(Degraded(t.message), false, [TimerCommand])
    else
      var r := exec(RunnerListCommand);
      if r.Raised? then ProbeRun(Degraded(r.message), false, [TimerCommand, RunnerListCommand])
      else
        var l := exec(LogCommand);
        if l.Raised? then ProbeRun(Degraded(l.message), false, [TimerCommand, RunnerListCommand, LogCommand])
        else
          ProbeRun(Classify(TimerState(t.stdout, t.code), RunnerCount(r.stdout), LastActivity(l.stdout, l.code)),
                   true, [TimerCommand, RunnerListCommand, LogCommand])
  }

  // ---------------------------------------------------------------------------
  // The cache

  predicate Fresh(cache: Cache, host: string, now: real) {
    host in cache && now - cache[host].time < CacheTimeout
  }

  /** One call of `get_server_status` at time `now`: the record, the cache afterwards and
      the commands issued. */
  datatype Answer = Answer(result: ServerStatus, cache: Cache, issued: seq<string>)

  function StatusQuery(cache: Cache, host: string, now: real, exec: Executor): Answer {
    if Fresh(cache, host, now) then Answer(cache[host].result, cache, [])
    else
      var p := ProbeServer(exec);
      if p.completed then Answer(p.result, cache[host := CacheEntry(p.result, now)], p.issued)
      else Answer(p.result, cache, p.issued)
  }

  // ---------------------------------------------------------------------------
  // Properties of the cache

  /** A fresh entry answers without probing and leaves the cache alone. */
  lemma FreshEntryAnswers(cache: Cache, host: string, now: real, exec: Executor)
    requires host in cache && now - cache[host].time < CacheTimeout
    ensures StatusQuery(cache, host, now, exec) == Answer(cache[host].result, cache, [])
  {
  }

  /** Without a fresh entry the timer probe is issued first. */
  lemma StaleEntryReprobes(cache: Cache, host: string, now: real, exec: Executor)
    requires !Fresh(cache, host, now)
    ensures var a := StatusQuery(cache, host, now, exec);
      |a.issued| >= 1 && a.issued[0] == TimerCommand && a.result == ProbeServer(exec).result
  {
  }

  /** A completed probe is stored under the host, stamped `now`; asking again less than five
      seconds later returns it without a command, whatever the replies would now be. */
  lemma ProbedRecordIsCached(cache: Cache, host: string, now: real, later: real, exec: Executor, exec': Executor)
    requires !Fresh(cache, host, now) && ProbeServer(exec).completed
    requires later - now < CacheTimeout
    ensures var a := StatusQuery(cache, host, now, exec);
      a.cache == cache[host := CacheEntry(a.result, now)] &&
      StatusQuery(a.cache, host, later, exec') == Answer(a.result, a.cache, [])
  {
  }

  /** The degraded record of the exception path is returned but not stored, so the next
      call probes again. */
  lemma FailureIsNotCached(cache: Cache, host: string, now: real, exec: Executor, exec': Executor)
    requires !Fresh(cache, host, now) && !ProbeServer(exec).completed
    ensures var a := StatusQuery(cache, host, now, exec);
      a.cache == cache && a.result.status == Offline && a.result.runners == 0 &&
      StartsWith(a.result.lastActivity, "Error: ") &&
      StatusQuery(a.cache, host, now, exec').issued != []
  {
    var a := StatusQuery(cache, host, now, exec);
    assert a.result.lastActivity[..7] == "Error: ";
    StaleEntryReprobes(a.cache, host, now, exec');
  }

  /** No entry but the host's changes, and the host's entry changes only to the new record. */
  lemma OnlyHostEntryChanges(cache: Cache, host: string, now: real, exec: Executor)
    ensures var a := StatusQuery(cache, host, now, exec);
      (forall h :: h != host ==> (h in a.cache <==> h in cache)) &&
      (forall h :: h != host && h in cache ==> a.cache[h] == cache[h]) &&
      (a.cache == cache || a.cache[host] == CacheEntry(a.result, now))
  {
  }

  // ---------------------------------------------------------------------------
  // Properties of the classification

  /** A completed probe reports the server online, and its automation active, exactly when
      the timer probe succeeded and its cleaned output is `active`; it counts the runner
      lines of the second reply and takes the last activity from the third. */
  lemma OnlineIffTimerActive(exec: Executor)
    requires ProbeServer(exec).completed
    ensures var r := ProbeServer(exec).result; var t := exec(TimerCommand);
      var l := exec(LogCommand); var logText := Strip(Clean(l.stdout));
      (r.status == Online <==> t.code == 0 && Strip(Clean(t.stdout)) == "active") &&
      (r.status == Online <==> r.automation == Active) &&
      r.runners == |RunnerLines(Split(Clean(exec(RunnerListCommand).stdout), '\n'))| &&
      r.lastActivity == (if l.code == 0 && logText != "" then logText else NoLog)
  {
  }

  /** Every record, cached or not, says online exactly when it says the automation is
      active, and never counts runners on the exception path. */
  lemma StatusAgreesWithAutomation(cache: Cache, host: string, now: real, exec: Executor)
    requires forall h :: h in cache ==> (cache[h].result.status == Online <==> cache[h].result.automation == Active)
    ensures var a := StatusQuery(cache, host, now, exec);
      (a.result.status == Online <==> a.result.automation == Active) &&
      forall h :: h in a.cache ==> (a.cache[h].result.status == Online <==> a.cache[h].result.automation == Active)
  {
  }

  /** The last activity is never empty and has no surrounding whitespace. */
  lemma LastActivityShape(stdout: string, code: int)
    ensures var s := LastActivity(stdout, code); s != "" && Strip(s) == s
    ensures code != 0 ==> LastActivity(stdout, code) == NoLog
  {
    StripIdempotent(Clean(stdout));
    StripOfNoLog(NoLog);
  }

  lemma StripOfNoLog(s: string)
    requires s == "No log available"
    ensures Strip(s) == s
  {
    assert !IsSpace(s[0]) && !IsSpace(s[|s| - 1]);
  }

  /** Each counted line is a stripped cleaned line naming a running runner service. */
  lemma RunnerLineOrigin(lines: seq<string>, k: nat) returns (i: nat)
    requires k < |RunnerLines(lines)|
    ensures i < |lines| && IsRunnerLine(lines[i]) && RunnerLines(lines)[k] == Strip(lines[i])
  {
    i := StrippedWhereOrigin(lines, IsRunnerLine, k);
  }

  lemma {:induction false} StrippedWhereOrigin(lines: seq<string>, p: string -> bool, k: nat) returns (i: nat)
    requires k < |StrippedWhere(lines, p)|
    ensures i < |lines| && p(lines[i]) && StrippedWhere(lines, p)[k] == Strip(lines[i])
  {
    var tail := lines[1..];
    var rest := StrippedWhere(tail, p);
    if p(lines[0]) && k == 0 {
      i := 0;
    } else {
      var k' := if p(lines[0]) then k - 1 else k;
      assert StrippedWhere(lines, p)[k] == rest[k'];
      var j := StrippedWhereOrigin(tail, p, k');
      assert lines[j + 1] == tail[j];
      i := j + 1;
    }
  }

  /** The count adds up over consecutive stretches of lines. */
  lemma RunnerLinesAppend(a: seq<string>, b: seq<string>)
    ensures RunnerLines(a + b) == RunnerLines(a) + RunnerLines(b)
  {
    StrippedWhereAppend(a, b, IsRunnerLine);
  }

  lemma {:induction false} StrippedWhereAppend(a: seq<string>, b: seq<string>, p: string -> bool)
    ensures StrippedWhere(a + b, p) == StrippedWhere(a, p) + StrippedWhere(b, p)
  {
    if a == [] {
      assert a + b == b;
    } else {
      assert (a + b)[1..] == a[1..] + b;
      StrippedWhereAppend(a[1..], b, p);
    }
  }

  /** Every line naming a running runner service is counted, among any other lines: the
      line at `i` is the count's entry just after those of the lines before it. */
  lemma AllRunnerLinesCounted(lines: seq<string>, i: nat)
    requires i < |lines| && IsRunnerLine(lines[i])
    ensures var before := |RunnerLines(lines[..i])|;
      before < |RunnerLines(lines)| && RunnerLines(lines)[before] == Strip(lines[i])
    ensures Strip(lines[i]) in RunnerLines(lines)
  {
    var line := lines[i];
    var none: seq<string> := [];
    assert RunnerLines([line]) == [Strip(line)] by {
      assert [line][1..] == none;
    }
    assert lines == lines[..i] + [line] + lines[i + 1..];
    RunnerLinesAppend(lines[..i] + [line], lines[i + 1..]);
    RunnerLinesAppend(lines[..i], [line]);
  }

  /** The indices of the lines naming a running runner service. */
  function RunnerIndices(lines: seq<string>): set<nat> {
    IndicesWhere(lines, IsRunnerLine)
  }

  /** The indices of the elements of `xs` that satisfy `p`. */
  function IndicesWhere<T>(xs: seq<T>, p: T -> bool): set<nat> {
    set i: nat | i < |xs| && p(xs[i])
  }

  /** The runner count is the number of lines naming a running runner service. */
  lemma {:induction false} RunnerCountIsRunnerLines(lines: seq<string>)
    ensures |RunnerLines(lines)| == |RunnerIndices(lines)|
    decreases |lines|
  {
    if lines != [] {
      var k := |lines| - 1;
      var init, last := lines[..k], lines[k];
      assert lines == init + [last];
      RunnerCountIsRunnerLines(init);
      RunnerLinesSnoc(init, last);
      RunnerIndicesSnoc(init, last);
    }
  }

  lemma RunnerLinesSnoc(init: seq<string>, last: string)
    ensures |RunnerLines(init + [last])| == |RunnerLines(init)| + if IsRunnerLine(last) then 1 else 0
  {
    var none: seq<string> := [];
    assert [last][1..] == none;
    RunnerLinesAppend(init, [last]);
  }

  lemma RunnerIndicesSnoc(init: seq<string>, last: string)
    ensures |RunnerIndices(init + [last])| == |RunnerIndices(init)| + if IsRunnerLine(last) then 1 else 0
  {
    IndicesSnoc(init, last, IsRunnerLine);
  }

  lemma IndicesSnoc<T>(init: seq<T>, last: T, p: T -> bool)
    ensures |IndicesWhere(init + [last], p)| == |IndicesWhere(init, p)| + if p(last) then 1 else 0
  {
    var xs := init + [last];
    var k := |init|;
    assert forall i :: 0 <= i < k ==> xs[i] == init[i];
    if p(last) {
      assert IndicesWhere(xs, p) == IndicesWhere(init, p) + {k};
      assert k !in IndicesWhere(init, p);
    } else {
      assert IndicesWhere(xs, p) == IndicesWhere(init, p);
    }
  }
}
