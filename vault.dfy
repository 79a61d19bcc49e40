/** `RunnerManager.load_config`: the GitHub settings read, line by line, from the
    Ansible vault file of the `runner-hosts` group. */
module Vault {
  import opened PyStr

  /** The three keys `load_config` can set. */
  datatype ConfigKey = GithubToken | GithubUsername | ScanInterval

  datatype ConfigValue = Text(text: string) | Number(number: nat)

  type Config = map<ConfigKey, ConfigValue>

  /** What one line of the vault does to the configuration: set a key, nothing, or raise
      (a missing quote gives an `IndexError`, a non-integer interval a `ValueError`), which
      ends the reading. */
  datatype LineEffect = Assign(key: ConfigKey, value: ConfigValue) | NoEffect | Raises

  /** The three tests of the loop body, in their order: a token line (even a commented
      one) needs `ghp_`, a username line must not start with `#`, and the interval is the
      integer between the first two colons. */
  function LineEffectOf(line: string): LineEffect {
    if Contains(line, "github_token:") && Contains(line, "ghp_") then
      match Field(line, '"', 1)
      case None => Raises
      case Some(v) => Assign(GithubToken, Text(v))
    else if Contains(line, "github_username:") && !StartsWith(line, "#") then
      match Field(line, '"', 1)
      case None => Raises
      case Some(v) => Assign(GithubUsername, Text(v))
    else if Contains(line, "scan_interval_minutes:") then
      match Field(line, ':', 1)
      case None => Raises
      case Some(v) =>
        match ParseNat(Strip(v))
        case None => Raises
        case Some(n) => Assign(ScanInterval, Number(n))
    else NoEffect
  }

  predicate Assigns(line: string, k: ConfigKey) {
    LineEffectOf(line).Assign? && LineEffectOf(line).key == k
  }

  /** The configuration after reading `lines` on top of `cfg`. */
  function ReadLines(cfg: Config, lines: seq<string>): Config
    decreases |lines|
  {
    if lines == [] then cfg
    else
      match LineEffectOf(lines[0])
      case Raises => cfg
      case NoEffect => ReadLines(cfg, lines[1..])
      case Assign(k, v) => ReadLines(cfg[k := v], lines[1..])
  }

  predicate Fails(line: string) {
    LineEffectOf(line).Raises?
  }

  /** The lines read before the first one that raises. */
  function ReadPrefix(lines: seq<string>): (p: seq<string>)
    ensures |p| <= |lines| && p == lines[..|p|]
    ensures forall i :: 0 <= i < |p| ==> !Fails(p[i])
    ensures |p| < |lines| ==> Fails(lines[|p|])
  {
    if lines == [] || Fails(lines[0]) then []
    else
      var rest := ReadPrefix(lines[1..]);
      var p := [lines[0]] + rest;
      assert forall i :: 1 <= i < |p| ==> p[i] == rest[i - 1];
      assert |p| < |lines| ==> lines[|p|] == lines[1..][|rest|];
      p
  }

  /** `load_config` on the vault's content, `None` when the file cannot be opened: a line
      that raises ends the reading and what was read so far is kept. */
  method LoadConfig(vault: Option<string>) returns (config: Config)
    ensures vault.None? ==> config == map[]
    ensures vault.Some? ==> config == ReadLines(map[], Split(vault.value, '\n'))
  {
    config := map[];
    if vault.None? {
      return;
    }
    var lines := Split(vault.value, '\n');
    var i := 0;
    while i < |lines|
      invariant 0 <= i <= |lines|
      invariant ReadLines(config, lines[i..]) == ReadLines(map[], lines)
    {
      assert lines[i..][1..] == lines[i + 1..];
      var effect := LineEffectOf(lines[i]);
      if effect.Raises? {
        break;
      }
      if effect.Assign? {
        config := config[effect.key := effect.value];
      }
      i := i + 1;
    }
  }

  // ---------------------------------------------------------------------------
  // Which line wins

  /** Reading stops at the first line that raises: only `ReadPrefix(lines)` counts. */
  lemma {:induction false} ReadStopsAtFailure(cfg: Config, lines: seq<string>)
    decreases |lines|
    ensures ReadLines(cfg, lines) == ReadLines(cfg, ReadPrefix(lines))
  {
    if lines != [] && !Fails(lines[0]) {
      var p := ReadPrefix(lines);
      assert p[1..] == ReadPrefix(lines[1..]);
      match LineEffectOf(lines[0])
      case NoEffect => ReadStopsAtFailure(cfg, lines[1..]);
      case Assign(k, v) => ReadStopsAtFailure(cfg[k := v], lines[1..]);
    }
  }

  /** Over lines none of which raises, a key ends up with the value of the last line that
      assigns it, and keeps its starting value (or absence) when no line does. */
  lemma {:induction false} LastAssignmentWins(cfg: Config, lines: seq<string>, k: ConfigKey)
    requires forall i :: 0 <= i < |lines| ==> !Fails(lines[i])
    ensures (exists i :: 0 <= i < |lines| && Assigns(lines[i], k)) ==>
      k in ReadLines(cfg, lines) &&
      exists i :: 0 <= i < |lines| && LineEffectOf(lines[i]) == Assign(k, ReadLines(cfg, lines)[k]) &&
        forall j :: i < j < |lines| ==> !Assigns(lines[j], k)
    ensures (forall i :: 0 <= i < |lines| ==> !Assigns(lines[i], k)) ==>
      (k in ReadLines(cfg, lines) <==> k in cfg) &&
      (k in cfg ==> ReadLines(cfg, lines)[k] == cfg[k])
    decreases |lines|
  {
    if lines != [] {
      var rest := lines[1..];
      var next := match LineEffectOf(lines[0]) case Assign(k0, v0) => cfg[k0 := v0] case _ => cfg;
      assert ReadLines(cfg, lines) == ReadLines(next, rest);
      LastAssignmentWins(next, rest, k);
      var r := ReadLines(cfg, lines);
      if exists i :: 0 <= i < |rest| && Assigns(rest[i], k) {
        var i :| 0 <= i < |rest| && LineEffectOf(rest[i]) == Assign(k, r[k]) &&
          forall j :: i < j < |rest| ==> !Assigns(rest[j], k);
        assert LineEffectOf(lines[i + 1]) == Assign(k, r[k]);
        assert forall j :: i + 1 < j < |lines| ==> lines[j] == rest[j - 1];
      } else if Assigns(lines[0], k) {
        assert forall j :: 0 < j < |lines| ==> lines[j] == rest[j - 1];
        assert LineEffectOf(lines[0]) == Assign(k, r[k]);
      } else {
        assert forall i :: 0 <= i < |lines| ==> !Assigns(lines[i], k) by {
          assert forall i :: 0 < i < |lines| ==> lines[i] == rest[i - 1];
        }
      }
    }
  }

  /** What `load_config` returns for each key, stated without the fold: the value of the
      last line before the first failure that assigns the key; no entry when none does. */
  lemma LoadedValue(content: string, k: ConfigKey)
    ensures var p := ReadPrefix(Split(content, '\n'));
      var cfg := ReadLines(map[], Split(content, '\n'));
      (k in cfg <==> exists i :: 0 <= i < |p| && Assigns(p[i], k)) &&
      (k in cfg ==> exists i :: (0 <= i < |p| && LineEffectOf(p[i]) == Assign(k, cfg[k]) &&
        forall j :: i < j < |p| ==> !Assigns(p[j], k)))
  {
    var lines := Split(content, '\n');
    ReadStopsAtFailure(map[], lines);
    LastAssignmentWins(map[], ReadPrefix(lines), k);
  }

  // ---------------------------------------------------------------------------
  // The three kinds of vault line

  /** A `github_token:` line holding a quoted `ghp_` token sets the token, whatever comes
      before it: a commented-out token line (`pre == "# "`) is read as well. */
  lemma TokenLineRead(pre: string, token: string)
    requires '"' !in pre && '"' !in token && StartsWith(token, "ghp_")
    ensures LineEffectOf(pre + "github_token: \"" + token + "\"") == Assign(GithubToken, Text(token))
  {
    var line := pre + "github_token: \"" + token + "\"";
    var head := pre + "github_token: ";
    assert '"' !in "github_token: ";
    FieldBetween(line, head, '"', token, "\"");
    assert HasAt(line, "github_token:", |pre|) by {
      assert line[|pre|..|pre| + 13] == "github_token:";
    }
    ContainsAt(line, "github_token:", |pre|);
    assert HasAt(line, "ghp_", |head| + 1) by {
      assert line[|head| + 1..|head| + 5] == token[..4] == "ghp_";
    }
    ContainsAt(line, "ghp_", |head| + 1);
  }

  /** The only colon of a username line is the one after the key. */
  lemma UsernameColon(pre: string, user: string)
    requires ':' !in pre && ':' !in user
    ensures var line := pre + "github_username: " + ("\"" + user + "\"");
      forall i :: 0 <= i < |line| && line[i] == ':' ==> i == |pre| + 15
  {
    var key := "github_username: ";
    assert forall i :: 0 <= i < |key| && key[i] == ':' ==> i == 15;
    assert ':' !in "\"" + user + "\"" by {
      ConcatChars("\"", user, "\"");
    }
    OnlyAt(pre, key, "\"" + user + "\"", ':', 15);
  }

  /** A username line holds no `github_token:`: its only colon is too far in. */
  lemma UsernameLineNoToken(pre: string, user: string)
    requires ':' !in pre && ':' !in user
    ensures !Contains(pre + "github_username: " + ("\"" + user + "\""), "github_token:")
  {
    var key := "github_username: ";
    var tail := "\"" + user + "\"";
    var line := pre + key + tail;
    UsernameColon(pre, user);
    var colon := |pre| + 15;
    assert line[colon - 12] == 'h' by { ConcatChars(pre, key, tail); }
    AbsentByUniqueChar(line, "github_token:", 12, colon);
  }

  lemma UsernameLineKey(pre: string, user: string)
    ensures Contains(pre + "github_username: " + ("\"" + user + "\""), "github_username:")
  {
    var key := "github_username: ";
    var line := pre + key + ("\"" + user + "\"");
    ConcatChars(pre, key, "\"" + user + "\"");
    assert HasAt(line, "github_username:", |pre|) by {
      assert line[|pre|..|pre| + 16] == key[..16];
    }
    ContainsAt(line, "github_username:", |pre|);
  }

  lemma UsernameLineField(pre: string, user: string)
    requires '"' !in pre && '"' !in user
    ensures Field(pre + "github_username: " + ("\"" + user + "\""), '"', 1) == Some(user)
  {
    var key := "github_username: ";
    var head := pre + key;
    assert '"' !in key;
    FieldBetween(pre + key + ("\"" + user + "\""), head, '"', user, "\"");
  }

  /** A username line starts with `#` exactly when `pre` does, and then it holds no
      `scan_interval_minutes:`. */
  lemma UsernameLineComment(pre: string, user: string)
    requires ':' !in pre && ':' !in user
    ensures var line := pre + "github_username: " + ("\"" + user + "\"");
      (StartsWith(line, "#") <==> StartsWith(pre, "#")) &&
      (StartsWith(pre, "#") ==> !Contains(line, "scan_interval_minutes:"))
  {
    var key := "github_username: ";
    var tail := "\"" + user + "\"";
    var line := pre + key + tail;
    ConcatChars(pre, key, tail);
    if pre == [] {
      assert line[0] == 'g';
    } else {
      assert line[0] == pre[0];
    }
    if StartsWith(pre, "#") {
      UsernameColon(pre, user);
      assert line[|pre|] == 'g';
      AbsentByUniqueChar(line, "scan_interval_minutes:", 21, |pre| + 15);
    }
  }

  /** How a line without `github_token:` but with `github_username:` is read. */
  lemma UsernameEffect(line: string, user: string)
    requires !Contains(line, "github_token:") && Contains(line, "github_username:")
    requires Field(line, '"', 1) == Some(user)
    requires StartsWith(line, "#") ==> !Contains(line, "scan_interval_minutes:")
    ensures LineEffectOf(line) ==
      if StartsWith(line, "#") then NoEffect else Assign(GithubUsername, Text(user))
  {
  }

  /** A `github_username:` line with a quoted name sets the username unless the line
      starts with `#`; then it changes nothing. */
  lemma UsernameLineRead(pre: string, user: string)
    requires '"' !in pre && '"' !in user && ':' !in pre && ':' !in user
    ensures LineEffectOf(pre + "github_username: " + ("\"" + user + "\"")) ==
      if StartsWith(pre, "#") then NoEffect else Assign(GithubUsername, Text(user))
  {
    UsernameLineNoToken(pre, user);
    UsernameLineKey(pre, user);
    UsernameLineField(pre, user);
    UsernameLineComment(pre, user);
    UsernameEffect(pre + "github_username: " + ("\"" + user + "\""), user);
  }

  /** The only colon of an interval line is the one after the key. */
  lemma IntervalColon(pre: string, digits: string)
    requires ':' !in pre && AllDigits(digits)
    ensures var line := pre + "scan_interval_minutes: " + digits;
      forall i :: 0 <= i < |line| && line[i] == ':' ==> i == |pre| + 21
  {
    var key := "scan_interval_minutes: ";
    assert forall i :: 0 <= i < |key| && key[i] == ':' ==> i == 21;
    assert ':' !in digits by {
      assert forall i :: 0 <= i < |digits| ==> IsDigit(digits[i]);
    }
    OnlyAt(pre, key, digits, ':', 21);
  }

  /** `strip()` of a space followed by digits is the digits. */
  lemma StripSpacedDigits(digits: string)
    requires digits != [] && AllDigits(digits)
    ensures Strip(" " + digits) == digits
  {
    assert !IsSpace(digits[0]) && !IsSpace(digits[|digits| - 1]);
    assert (" " + digits)[1..] == digits;
  }

  /** An interval line holds neither `github_token:` nor `github_username:`. */
  lemma IntervalLineNoOtherKey(pre: string, digits: string)
    requires ':' !in pre && AllDigits(digits)
    ensures !Contains(pre + "scan_interval_minutes: " + digits, "github_token:")
    ensures !Contains(pre + "scan_interval_minutes: " + digits, "github_username:")
  {
    var key := "scan_interval_minutes: ";
    var line := pre + key + digits;
    IntervalColon(pre, digits);
    var colon := |pre| + 21;
    assert line[colon - 12] == 'r' && line[colon - 15] == 'n' by { ConcatChars(pre, key, digits); }
    AbsentByUniqueChar(line, "github_token:", 12, colon);
    AbsentByUniqueChar(line, "github_username:", 15, colon);
  }

  lemma IntervalLineKey(pre: string, digits: string)
    ensures Contains(pre + "scan_interval_minutes: " + digits, "scan_interval_minutes:")
  {
    var key := "scan_interval_minutes: ";
    var line := pre + key + digits;
    ConcatChars(pre, key, digits);
    assert HasAt(line, "scan_interval_minutes:", |pre|) by {
      assert line[|pre|..|pre| + 22] == key[..22];
    }
    ContainsAt(line, "scan_interval_minutes:", |pre|);
  }

  lemma IntervalLineField(pre: string, digits: string)
    requires ':' !in pre && AllDigits(digits)
    ensures Field(pre + "scan_interval_minutes: " + digits, ':', 1) == Some(" " + digits)
  {
    var line := pre + "scan_interval_minutes: " + digits;
    assert Field(line, ':', 1) == Some(" " + digits) by {
      var head := pre + "scan_interval_minutes";
      var value := " " + digits;
      assert ':' !in "scan_interval_minutes";
      assert ':' !in value by {
        assert forall i :: 0 <= i < |digits| ==> IsDigit(digits[i]);
      }
      assert line == head + [':'] + value + [] by {
        assert "scan_interval_minutes: " == "scan_interval_minutes" + [':'] + " ";
      }
      FieldBetween(line, head, ':', value, []);
    }
  }

  /** How a line with `scan_interval_minutes:` and neither other key is read. */
  lemma IntervalEffect(line: string, v: string)
    requires !Contains(line, "github_token:") && !Contains(line, "github_username:")
    requires Contains(line, "scan_interval_minutes:") && Field(line, ':', 1) == Some(v)
    ensures LineEffectOf(line) ==
      match ParseNat(Strip(v)) case None => Raises case Some(n) => Assign(ScanInterval, Number(n))
  {
  }

  /** A `scan_interval_minutes:` line followed by the decimal digits of `n` sets the
      interval to `n`, commented out or not. */
  lemma IntervalLineRead(pre: string, n: nat)
    requires ':' !in pre
    ensures LineEffectOf(pre + "scan_interval_minutes: " + NatToString(n)) == Assign(ScanInterval, Number(n))
  {
    var digits := NatToString(n);
    IntervalLineNoOtherKey(pre, digits);
    IntervalLineKey(pre, digits);
    IntervalLineField(pre, digits);
    StripSpacedDigits(digits);
    ParseNatToString(n);
    IntervalEffect(pre + "scan_interval_minutes: " + digits, " " + digits);
  }
}
