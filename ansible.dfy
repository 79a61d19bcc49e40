/** The Ansible side of `RunnerManager`: the command line it builds, the reply it gets
    back, and `clean_ansible_output`, which strips Ansible's framing from that reply. */
module Ansible {
  import opened PyStr

  /** What one call of `run_ansible_command` gives back. `Raised` stands for an exception
      escaping the call; the Python method catches its own exceptions and then answers
      `Reply("", message, 1)`, so `Raised` is what any other failure looks like to a caller. */
  datatype Reply = Reply(stdout: string, stderr: string, code: int) | Raised(message: string)

  /** The remote-execution tool: an oracle from the full command line to its reply. */
  type Executor = string -> Reply

  const InventoryFile: string := "../inventory/hosts"

  /** What every command line starts with: the inventory, the `runner-hosts` group, the
      shell module, and the quote that opens the command. */
  const CommandPrefix: string := "ansible -i " + InventoryFile + " runner-hosts -m shell -a '"

  /** The command line of `run_ansible_command`. */
  function AnsibleCommand(command: string, become: bool, becomeUser: string): string {
    CommandPrefix + command + "'" + if become then " -b -u " + becomeUser else ""
  }

  /** Every command line is the prefix, the command, the closing quote, and ` -b -u <user>`
      exactly when `become` is set. */
  lemma AnsibleCommandLayout(command: string, become: bool, becomeUser: string)
    ensures var line := AnsibleCommand(command, become, becomeUser);
      |line| > |CommandPrefix| + |command| &&
      line[..|CommandPrefix|] == CommandPrefix &&
      line[|CommandPrefix|..|CommandPrefix| + |command|] == command &&
      line[|CommandPrefix| + |command|] == '\'' &&
      line[|CommandPrefix| + |command| + 1..] == (if become then " -b -u " + becomeUser else "")
  {
    var base := CommandPrefix + command + "'";
    var n := |CommandPrefix| + |command|;
    assert base[..|CommandPrefix|] == CommandPrefix && base[|CommandPrefix|..n] == command;
    assert base[n] == '\'' && base[n + 1..] == "";
    var suffix := if become then " -b -u " + becomeUser else "";
    assert (base + suffix)[..n + 1] == base;
  }

  /** A command without a quote is recovered from its command line: two such commands
      give the same line only when they are the same command, with the same `become`
      suffix. */
  lemma AnsibleCommandInjective(c1: string, b1: bool, u1: string, c2: string, b2: bool, u2: string)
    requires '\'' !in c1 && '\'' !in c2
    requires AnsibleCommand(c1, b1, u1) == AnsibleCommand(c2, b2, u2)
    ensures c1 == c2
    ensures (if b1 then " -b -u " + u1 else "") == (if b2 then " -b -u " + u2 else "")
  {
    AnsibleCommandLayout(c1, b1, u1);
    AnsibleCommandLayout(c2, b2, u2);
    QuoteFreeCommand(c1, b1, u1);
    QuoteFreeCommand(c2, b2, u2);
    var n := |CommandPrefix|;
    assert |c1| == |c2|;
    assert c1 == AnsibleCommand(c1, b1, u1)[n..n + |c1|];
  }

  /** Between the opening quote and the closing one, a quote-free command puts no quote. */
  lemma QuoteFreeCommand(c: string, b: bool, u: string)
    requires '\'' !in c
    ensures var line := AnsibleCommand(c, b, u);
      forall k :: |CommandPrefix| <= k < |CommandPrefix| + |c| ==> line[k] != '\''
  {
    var line := AnsibleCommand(c, b, u);
    var n := |CommandPrefix|;
    AnsibleCommandLayout(c, b, u);
    forall k | n <= k < n + |c|
      ensures line[k] != '\''
    {
      assert line[k] == line[n..n + |c|][k - n] == c[k - n];
    }
  }

  // ---------------------------------------------------------------------------
  // Status banners: `host | CHANGED | rc=0 >>` and its SUCCESS / FAILED variants.
  // Each is the pattern `^.*\|.*KEYWORD.*\|.*rc=\d+.*$` applied to one line (no
  // newline inside), i.e. the line holds, in this order, a `|`, the keyword, a
  // second `|`, and `rc=` followed by a digit.

  predicate RcAt(line: string, d: nat) {
    HasAt(line, "rc=", d) && d + 3 < |line| && IsDigit(line[d + 3])
  }

  /** `rc=` and a digit occur at some index `>= from` */
  predicate RcFrom(line: string, from: nat)
    decreases |line| - from
  {
    from < |line| && (RcAt(line, from) || RcFrom(line, from + 1))
  }

  /** The literal `pieces` occur in this order, without overlapping, from index `from`
      on, and are followed by `rc=` and a digit. */
  predicate InOrderThenRc(line: string, pieces: seq<string>, from: nat)
    decreases |pieces|, |line| - from
  {
    if pieces == [] then RcFrom(line, from)
    else
      from < |line| &&
      ((HasAt(line, pieces[0], from) && InOrderThenRc(line, pieces[1..], from + |pieces[0]|))
       || InOrderThenRc(line, pieces, from + 1))
  }

  predicate IsStatusBanner(line: string, keyword: string) {
    InOrderThenRc(line, ["|", keyword, "|"], 0)
  }

  predicate IsAnyBanner(line: string) {
    IsStatusBanner(line, "CHANGED") || IsStatusBanner(line, "SUCCESS") || IsStatusBanner(line, "FAILED")
  }

  /** A line survives cleaning: not a banner, not blank, not starting with `[`. */
  predicate Survives(line: string) {
    !IsAnyBanner(line) && Strip(line) != "" && !StartsWith(line, "[")
  }

  /** The surviving lines, stripped, in input order. */
  function KeptLines(lines: seq<string>): seq<string> {
    if lines == [] then []
    else if Survives(lines[0]) then [Strip(lines[0])] + KeptLines(lines[1..])
    else KeptLines(lines[1..])
  }

  /** What `clean_ansible_output` returns. */
  function Clean(output: string): string {
    if output == "" then output
    else
      var kept := KeptLines(Split(output, '\n'));
      if kept != [] then Join(kept, '\n') else Strip(output)
  }

  /** `clean_ansible_output`: one pass over the lines, appending each stripped survivor. */
  method CleanOutput(output: string) returns (r: string)
    ensures r == Clean(output)
    ensures output == "" ==> r == ""
  {
    if output == "" {
      return output;
    }
    var lines := Split(output, '\n');
    var cleaned: seq<string> := [];
    var i := 0;
    while i < |lines|
      invariant 0 <= i <= |lines|
      invariant cleaned + KeptLines(lines[i..]) == KeptLines(lines)
    {
      var line := lines[i];
      assert lines[i..][1..] == lines[i + 1..];
      if IsStatusBanner(line, "CHANGED") {
        i := i + 1;
        continue;
      }
      if IsStatusBanner(line, "SUCCESS") {
        i := i + 1;
        continue;
      }
      if IsStatusBanner(line, "FAILED") {
        i := i + 1;
        continue;
      }
      if StartsWith(line, "[") && Contains(line, "]") && Contains(line, "|") {
        i := i + 1;
        continue;
      }
      if Strip(line) != "" && !StartsWith(line, "[") {
        cleaned := cleaned + [Strip(line)];
      }
      i := i + 1;
    }
    assert lines[i..] == [];
    assert cleaned == KeptLines(lines);
    r := if cleaned != [] then Join(cleaned, '\n') else Strip(output);
  }

  // ---------------------------------------------------------------------------
  // What the cleaner promises

  /** Cleaning works line by line: the kept lines of two consecutive runs of lines are
      the kept lines of the first run followed by those of the second. With the
      definition on one line (its stripped form if it survives, nothing otherwise) this
      pins `KeptLines` down: the survivors, stripped, in input order. */
  lemma {:induction false} KeptLinesAppend(a: seq<string>, b: seq<string>)
    ensures KeptLines(a + b) == KeptLines(a) + KeptLines(b)
  {
    if a == [] {
      assert a + b == b;
    } else {
      assert (a + b)[1..] == a[1..] + b;
      KeptLinesAppend(a[1..], b);
    }
  }

  /** Each kept line is the stripped form of a surviving input line; `i` is where it came from. */
  lemma {:induction false} KeptLineOrigin(lines: seq<string>, k: nat) returns (i: nat)
    requires k < |KeptLines(lines)|
    ensures i < |lines| && Survives(lines[i]) && KeptLines(lines)[k] == Strip(lines[i])
  {
    if Survives(lines[0]) && k == 0 {
      i := 0;
    } else {
      var j := KeptLineOrigin(lines[1..], if Survives(lines[0]) then k - 1 else k);
      i := j + 1;
    }
  }

  /** Every kept line is non-empty, stripped and free of newlines when the input lines are. */
  lemma {:induction false} KeptLinesShape(lines: seq<string>)
    requires forall i :: 0 <= i < |lines| ==> '\n' !in lines[i]
    ensures forall k :: 0 <= k < |KeptLines(lines)| ==>
      var l := KeptLines(lines)[k];
      l != "" && Strip(l) == l && '\n' !in l && !IsAnyBanner(l)
  {
    if lines != [] {
      var rest := KeptLines(lines[1..]);
      KeptLinesShape(lines[1..]);
      if Survives(lines[0]) {
        assert KeptLines(lines) == [Strip(lines[0])] + rest;
        SurvivorShape(lines[0]);
      } else {
        assert KeptLines(lines) == rest;
      }
    }
  }

  /** The stripped form of a surviving line is non-empty, stripped, free of newlines when
      the line is, and no banner (a banner inside it would be one inside the line). */
  lemma SurvivorShape(line: string)
    requires Survives(line) && '\n' !in line
    ensures var l := Strip(line); l != "" && Strip(l) == l && '\n' !in l && !IsAnyBanner(l)
  {
    var l := Strip(line);
    StripIdempotent(line);
    var lo := StripSlice(line);
    assert l == line[lo..lo + |l|];
    assert '\n' !in l by {
      assert forall j :: 0 <= j < |l| ==> l[j] == line[lo + j];
    }
    SliceNotBanner(line, lo, lo + |l|, "CHANGED");
    SliceNotBanner(line, lo, lo + |l|, "SUCCESS");
    SliceNotBanner(line, lo, lo + |l|, "FAILED");
  }

  /** A slice of a line that is no banner is no banner either. */
  lemma SliceNotBanner(line: string, lo: nat, hi: nat, keyword: string)
    requires lo <= hi <= |line| && !IsStatusBanner(line, keyword)
    ensures !IsStatusBanner(line[lo..hi], keyword)
  {
    if IsStatusBanner(line[lo..hi], keyword) {
      InOrderSlice(line, lo, hi, ["|", keyword, "|"], 0);
      InOrderFromStart(line, ["|", keyword, "|"], lo);
    }
  }

  lemma HasAtSlice(line: string, lo: nat, hi: nat, p: string, i: nat)
    requires lo <= hi <= |line|
    requires HasAt(line[lo..hi], p, i)
    ensures HasAt(line, p, lo + i)
  {
    var inSlice := line[lo..hi][i..i + |p|];
    var inLine := line[lo + i..lo + i + |p|];
    assert forall k :: 0 <= k < |p| ==> inSlice[k] == inLine[k];
  }

  lemma {:induction false} RcFromSlice(line: string, lo: nat, hi: nat, from: nat)
    requires lo <= hi <= |line|
    requires RcFrom(line[lo..hi], from)
    ensures RcFrom(line, lo + from)
    decreases hi - lo - from
  {
    var s := line[lo..hi];
    if RcAt(s, from) {
      HasAtSlice(line, lo, hi, "rc=", from);
      assert line[lo + from + 3] == s[from + 3];
    } else {
      RcFromSlice(line, lo, hi, from + 1);
    }
  }

  /** A match found from some index on is a match from the start of the line. */
  lemma {:induction false} InOrderFromStart(line: string, pieces: seq<string>, from: nat)
    requires InOrderThenRc(line, pieces, from)
    ensures InOrderThenRc(line, pieces, 0)
    decreases from
  {
    if from > 0 {
      if pieces == [] {
        assert RcFrom(line, from - 1);
      } else {
        assert InOrderThenRc(line, pieces, from - 1);
      }
      InOrderFromStart(line, pieces, from - 1);
    }
  }

  /** What holds in a slice of a line holds in the line. */
  lemma {:induction false} InOrderSlice(line: string, lo: nat, hi: nat, pieces: seq<string>, from: nat)
    requires lo <= hi <= |line|
    requires InOrderThenRc(line[lo..hi], pieces, from)
    ensures InOrderThenRc(line, pieces, lo + from)
    decreases |pieces|, hi - lo - from
  {
    var s := line[lo..hi];
    if pieces == [] {
      RcFromSlice(line, lo, hi, from);
    } else if HasAt(s, pieces[0], from) && InOrderThenRc(s, pieces[1..], from + |pieces[0]|) {
      HasAtSlice(line, lo, hi, pieces[0], from);
      InOrderSlice(line, lo, hi, pieces[1..], from + |pieces[0]|);
    } else {
      InOrderSlice(line, lo, hi, pieces, from + 1);
    }
  }

  /** The banner Ansible prints for a command that succeeded with no output. */
  const ChangedBanner: string := "h | CHANGED | rc=0 >>"

  lemma ChangedBannerIsBanner()
    ensures IsAnyBanner(ChangedBanner) && '\n' !in ChangedBanner && Strip(ChangedBanner) == ChangedBanner
  {
    assert IsStatusBanner(ChangedBanner, "CHANGED") by {
      assert ChangedBanner == "h" + " | " + "CHANGED" + " | rc=" + ['0'] + " >>";
      BannerShape("h", "CHANGED", '0', " >>");
    }
    assert Strip(ChangedBanner) == ChangedBanner by {
      var l := ChangedBanner;
      assert !IsSpace(l[0]) && !IsSpace(l[|l| - 1]);
    }
  }

  /** Every line `h | KEYWORD | rc=<digit>...` is a banner for that keyword. */
  lemma BannerShape(h: string, keyword: string, d: char, tail: string)
    requires IsDigit(d)
    ensures IsStatusBanner(h + " | " + keyword + " | rc=" + [d] + tail, keyword)
  {
    BannerPieces(h, keyword, d, tail);
    BannerFromPieces(h + " | " + keyword + " | rc=" + [d] + tail, keyword, |h| + 1);
  }

  /** A `|` at `bar`, the keyword one space later, another `|` one space after it, and
      `rc=` and a digit one space after that make a banner. */
  lemma BannerFromPieces(line: string, keyword: string, bar: nat)
    requires HasAt(line, "|", bar) && HasAt(line, keyword, bar + 2)
    requires HasAt(line, "|", bar + 2 + |keyword| + 1) && RcAt(line, bar + 2 + |keyword| + 3)
    ensures IsStatusBanner(line, keyword)
  {
    var pieces, rest, last: seq<string> := ["|", keyword, "|"], [keyword, "|"], ["|"];
    assert pieces[1..] == rest && rest[1..] == last && last[1..] == [];
    var bar2 := bar + 2 + |keyword| + 1;
    assert InOrderThenRc(line, [], bar2 + 1) by {
      assert RcFrom(line, bar2 + 2);
    }
    assert InOrderThenRc(line, last, bar + 2 + |keyword|);
    assert InOrderThenRc(line, rest, bar + 1);
    assert InOrderThenRc(line, pieces, bar);
    InOrderFromStart(line, pieces, bar);
  }

  /** Where the pieces of a banner line sit. */
  lemma BannerPieces(h: string, keyword: string, d: char, tail: string)
    requires IsDigit(d)
    ensures var line := h + " | " + keyword + " | rc=" + [d] + tail;
      var bar1 := |h| + 1;
      var bar2 := bar1 + 2 + |keyword| + 1;
      HasAt(line, "|", bar1) && HasAt(line, keyword, bar1 + 2) && HasAt(line, "|", bar2) &&
      RcAt(line, bar2 + 2)
  {
    var line := h + " | " + keyword + " | rc=" + [d] + tail;
    var bar1 := |h| + 1;
    var kw := bar1 + 2;
    var bar2 := kw + |keyword| + 1;
    var rc := bar2 + 2;
    assert line[bar1..bar1 + 1] == "|";
    assert line[kw..kw + |keyword|] == keyword;
    assert line[bar2..bar2 + 1] == "|";
    assert line[rc..rc + 3] == "rc=" && line[rc + 3] == d;
  }

  /** An output that is a single banner line cleans to that line: no line survives, so
      the fallback `output.strip()` gives the banner back. */
  lemma CleanBannerOnly(banner: string)
    requires IsAnyBanner(banner) && '\n' !in banner && Strip(banner) == banner
    ensures KeptLines(Split(banner, '\n')) == [] && Clean(banner) == banner
  {
    var none: seq<string> := [];
    SplitNoSep(banner, '\n');
    assert [banner][1..] == none;
  }

  /** When some line survives, the lines of the cleaned output are exactly the kept lines. */
  lemma CleanedLines(output: string)
    requires KeptLines(Split(output, '\n')) != []
    ensures Split(Clean(output), '\n') == KeptLines(Split(output, '\n'))
  {
    var lines := Split(output, '\n');
    KeptLinesShape(lines);
    SplitJoin(KeptLines(lines), '\n');
  }

  /** When no line survives, the result is just `output.strip()`. */
  lemma CleanFallsBackToStrip(output: string)
    requires KeptLines(Split(output, '\n')) == []
    ensures Clean(output) == Strip(output)
  {
  }

  lemma {:induction false} KeptLinesOfKept(ls: seq<string>)
    requires forall k :: 0 <= k < |ls| ==> ls[k] != "" && Strip(ls[k]) == ls[k] && !IsAnyBanner(ls[k]) && !StartsWith(ls[k], "[")
    ensures KeptLines(ls) == ls
  {
    if ls != [] {
      KeptLinesOfKept(ls[1..]);
    }
  }

  /** Cleaning is idempotent on an output whose surviving lines, once stripped, do not
      start with `[`. (In general it is not: see `CleanNotIdempotent`.) */
  lemma CleanIdempotentWithoutIndentedBrackets(output: string)
    requires KeptLines(Split(output, '\n')) != []
    requires forall k :: 0 <= k < |KeptLines(Split(output, '\n'))| ==>
      !StartsWith(KeptLines(Split(output, '\n'))[k], "[")
    ensures Clean(Clean(output)) == Clean(output)
  {
    var kept := KeptLines(Split(output, '\n'));
    CleanedLines(output);
    KeptLinesShape(Split(output, '\n'));
    KeptLinesOfKept(kept);
  }

  lemma BarAt(s: string, i: nat)
    ensures HasAt(s, "|", i) ==> '|' in s
  {
    if HasAt(s, "|", i) {
      assert s[i] == s[i..i + 1][0];
    }
  }

  lemma {:induction false} NoBarNoMatch(line: string, rest: seq<string>, from: nat)
    requires '|' !in line
    ensures !InOrderThenRc(line, ["|"] + rest, from)
    decreases |line| - from
  {
    BarAt(line, from);
    if from < |line| {
      NoBarNoMatch(line, rest, from + 1);
    }
  }

  lemma NoBarNoBanner(line: string, keyword: string)
    requires '|' !in line
    ensures !IsStatusBanner(line, keyword)
  {
    NoBarNoMatch(line, [keyword, "|"], 0);
    assert ["|", keyword, "|"] == ["|"] + [keyword, "|"];
  }

  /** Two lines joined by a newline split back into them. */
  lemma SplitTwoLines(a: string, b: string)
    requires '\n' !in a && '\n' !in b
    ensures Split(a + "\n" + b, '\n') == [a, b]
  {
    SplitNoSep(b, '\n');
    SplitPrefix(a, '\n', b);
    assert a + "\n" + b == a + ['\n'] + b;
  }

  /** A word holding no `|` and not starting with `[` survives cleaning unchanged. */
  lemma WordSurvives(w: string)
    requires w != "" && NoSpace(w) && '|' !in w && w[0] != '['
    ensures Survives(w) && Strip(w) == w
  {
    assert !IsSpace(w[0]) && !IsSpace(w[|w| - 1]);
    NoBarNoBanner(w, "CHANGED");
    NoBarNoBanner(w, "SUCCESS");
    NoBarNoBanner(w, "FAILED");
  }

  /** A `[` line indented by two spaces, holding no `|`, survives cleaning: it starts
      with a space, so the `[` test misses it; stripping then exposes the `[`. */
  lemma IndentedBracketSurvives(x: string)
    requires NoSpace(x) && '|' !in x
    ensures Survives("  [" + x) && Strip("  [" + x) == "[" + x
  {
    var line := "  [" + x;
    var bracketed := "[" + x;
    assert Strip(bracketed) == bracketed by {
      assert !IsSpace(bracketed[0]);
      assert !IsSpace(bracketed[|bracketed| - 1]) by {
        if x != "" {
          assert bracketed[|bracketed| - 1] == x[|x| - 1];
        }
      }
    }
    assert Strip(line) == bracketed by {
      assert line[1..] == " " + bracketed && line[1..][1..] == bracketed;
      assert Strip(line[1..]) == Strip(bracketed);
    }
    assert '|' !in line;
    NoBarNoBanner(line, "CHANGED");
    NoBarNoBanner(line, "SUCCESS");
    NoBarNoBanner(line, "FAILED");
    assert line[0] == ' ';
  }

  /** After a word line, a `[` line indented by two spaces is kept, stripped. */
  lemma CleanKeepsIndentedBracket(w: string, x: string)
    requires w != "" && NoSpace(w) && '|' !in w && w[0] != '['
    requires NoSpace(x) && '|' !in x
    ensures Clean(w + "\n  [" + x) == w + "\n[" + x
  {
    var indented, bracketed := "  [" + x, "[" + x;
    var none: seq<string> := [];
    assert '\n' !in w && '\n' !in indented by { assert IsSpace('\n'); }
    WordSurvives(w);
    IndentedBracketSurvives(x);
    assert w + "\n  [" + x == w + "\n" + indented;
    SplitTwoLines(w, indented);
    assert KeptLines([w, indented]) == [w, bracketed] by {
      assert [w, indented][1..] == [indented] && [indented][1..] == none;
      assert KeptLines([indented]) == [Strip(indented)] + KeptLines(none) == [bracketed];
      assert KeptLines([w, indented]) == [Strip(w)] + KeptLines([indented]);
    }
    assert Join([w, bracketed], '\n') == w + "\n[" + x by {
      assert [w, bracketed][1..] == [bracketed];
    }
  }

  /** After a word line, a line starting with `[` is dropped. */
  lemma CleanDropsBracket(w: string, x: string)
    requires w != "" && NoSpace(w) && '|' !in w && w[0] != '['
    requires NoSpace(x)
    ensures Clean(w + "\n[" + x) == w
  {
    var bracketed := "[" + x;
    var none: seq<string> := [];
    assert '\n' !in w && '\n' !in bracketed by { assert IsSpace('\n'); }
    WordSurvives(w);
    assert w + "\n[" + x == w + "\n" + bracketed;
    SplitTwoLines(w, bracketed);
    assert KeptLines([w, bracketed]) == [w] by {
      assert [w, bracketed][1..] == [bracketed] && [bracketed][1..] == none;
      assert !Survives(bracketed) by { assert bracketed[..1] == "["; }
      assert KeptLines([bracketed]) == KeptLines(none) == none;
      assert KeptLines([w, bracketed]) == [Strip(w)] + KeptLines([bracketed]);
    }
  }

  /** The cleaner is not idempotent: after a word line, a `[` line indented by two spaces
      survives once, stripped, and is dropped on the second pass. */
  lemma CleanNotIdempotent(w: string, x: string)
    requires w != "" && NoSpace(w) && '|' !in w && w[0] != '['
    requires NoSpace(x) && '|' !in x
    ensures Clean(w + "\n  [" + x) == w + "\n[" + x
    ensures Clean(Clean(w + "\n  [" + x)) == w != Clean(w + "\n  [" + x)
  {
    CleanKeepsIndentedBracket(w, x);
    CleanDropsBracket(w, x);
    assert |w| < |w + "\n[" + x|;
  }
}
